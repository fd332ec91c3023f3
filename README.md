# Text-scanning core of dbc_parser_cpp, in Dafny

dbc_parser_cpp reads DBC files, the text format that describes CAN bus
networks. Before the grammar-level parser can interpret anything, a small
layer in namespace `Utils` turns raw text into lines and tokens. This
project models that layer and proves what it does.

- **Line reading (`Utils::StreamHandler`).**
  - `get_line` reads one line and removes the carriage return of a CRLF
    ending, so LF and CRLF files read the same.
  - `get_next_non_blank_line` skips blank lines.
  - `skip_to_next_blank_line` skips to the next blank line, which ends a
    section.
  - Both scanners hand back `""` when the input runs out.
- **String and byte primitives.**
  - The two `trim` overloads: the default set is `std::isspace`; the
    other set is given by the caller.
  - `isWhitespaceOrEmpty`.
  - `swapEndianness`.
  - `String::trim`.
  - `String::split`, which cuts a string at a delimiter with
    `std::getline`.

The model has four modules, one per file:

- `Utils` (`utils.dfy`): the free functions of the header.
  - Trim is specified by `Trimmed`.
  - The erasures are methods whose loops are proved against that
    specification.
  - `swapEndianness` fills a fresh byte array in a `for` loop, as the
    source does.
- `Stream` (`stream.dfy`): the part of `std::istream` the layer relies on.
  - `InputStream` is a class with the characters, a read position, and
    the eofbit and failbit.
  - `GetLine` follows `std::getline` as the C++ standard library defines
    it:
    - a stream that is not good fails at once and leaves the out-string
      as it was;
    - otherwise characters are extracted up to and including the
      delimiter, and the delimiter is not stored;
    - reaching the end of input sets eofbit;
    - extracting nothing sets failbit.
  - So a final line without a terminator is still a successful read. The
    next read then fails, because eofbit is set.
- `StreamHandler` (`stream_handler.dfy`): `get_line` and the two scanners.
  - Their contracts say where a scan stops and what it returns.
  - `Run` states that every line a scan passed over was of the kind it
    skips.
  - The stream failing is equivalent to every remaining line being of
    the kind the scan skips.
- `UtilsString` (`utils_string.dfy`): `String::trim` and `String::split`.
  - The tokens of a split are given by `Tokens`.
  - `Join` is proved to be its inverse.

## Model

| member | source | states |
|---|---|---|
| Utils.IsWhitespaceOrEmpty | include/libdbc/utils/utils.hpp:99-102 | true exactly when every character is in the C-locale `isspace` set, so true for "" |
| Utils.BlankExamples | include/libdbc/utils/utils.hpp:99-102 | "" and "   \t" are blank, " a " is not |
| Utils.FirstKept | include/libdbc/utils/utils.hpp:59 | the forward `find_if` stops after a prefix made only of trim characters, at the first character that is not one (or at the end) |
| Utils.KeptEnd | include/libdbc/utils/utils.hpp:60 | the backward `find_if`'s `.base()` starts a suffix made only of trim characters, just after the last character that is not one |
| Utils.Trimmed | include/libdbc/utils/utils.hpp:58-61 | the trimmed value is no longer than the input, and when non-empty neither starts nor ends with a trim character |
| Utils.TrimmedIsTrimOf | include/libdbc/utils/utils.hpp:58-61 | the trimmed value is `value[i..j]`, with everything before `i` and from `j` on a trim character (value == L + trim(value) + R) |
| Utils.TrimOfUnique | include/libdbc/utils/utils.hpp:83-86 | any split of the value into trim-set prefix, kept middle that neither starts nor ends with a trim character, and trim-set suffix has that middle equal to the trimmed value |
| Utils.TrimmedEmptyIff | include/libdbc/utils/utils.hpp:83-86 | the result is "" if and only if every character of the value is in the trim set |
| Utils.TrimmedIdempotent | include/libdbc/utils/utils.hpp:58-61 | trimming a trimmed value changes nothing |
| Utils.BlankIffTrimsToEmpty | include/libdbc/utils/utils.hpp:58-61 | `trim(value)` is "" exactly when `isWhitespaceOrEmpty(value)` |
| Utils.TrimExample | include/libdbc/utils/utils.hpp:58-61 | "  hello  " trims to "hello" |
| Utils.FindFirstKept | include/libdbc/utils/utils.hpp:84 | the forward search loop returns FirstKept |
| Utils.FindKeptEnd | include/libdbc/utils/utils.hpp:85 | the backward search loop returns KeptEnd |
| Utils.TrimChars | include/libdbc/utils/utils.hpp:83-86 | copying, erasing the leading run and then the trailing run yields Trimmed(value, trimChars) |
| Utils.Trim | include/libdbc/utils/utils.hpp:58-61 | `trim(value)` yields Trimmed(value, Whitespace) |
| Utils.Swapped | include/libdbc/utils/utils.hpp:111-124 | same width; byte `n-1-i` of the result is byte `i` of the input |
| Utils.SwapEndianness | include/libdbc/utils/utils.hpp:111-124 | the loop writing `swappedPtr[n-1-i] = valuePtr[i]` returns bytes of the same width, reversed |
| Utils.SwappedTwice | include/libdbc/utils/utils.hpp:111-124 | swapping twice gives back the original bytes |
| Utils.SwappedReadsBigEndian | include/libdbc/utils/utils.hpp:111-124 | the swapped bytes, read least significant first, are the number the original bytes stand for most significant first |
| Utils.SwapFourBytes | include/libdbc/utils/utils.hpp:111-124 | 0x01020304 stored little-endian swaps to the bytes of 0x04030201 |
| Stream.DelimIndex | include/libdbc/utils/utils.hpp:135 | the first delimiter at or after the read position, or the end of input: no delimiter before it |
| Stream.InputStream.constructor | include/libdbc/utils/utils.hpp:132 | a fresh string stream is good and positioned at the start of the string |
| Stream.InputStream.GetLine | src/utils.cpp:11 | the not-good stream fails and keeps the out-string; otherwise the result is the text up to the delimiter, the position moves past it (or to the end), eofbit is set at end of input and failbit exactly when nothing could be extracted |
| StreamHandler.StripCR | src/utils.cpp:12-14 | either exactly one trailing `'\r'` is removed, or the line is kept and does not end in `'\r'` |
| StreamHandler.LineAt | src/utils.cpp:10-16 | the line `get_line` yields from a good stream is the text right after the read position, ending at or before the line feed |
| StreamHandler.NextLineStart | src/utils.cpp:11 | a line read always moves the position forward, to at most the end of input |
| StreamHandler.LineAtShape | src/utils.cpp:10-16 | a line read holds no `'\n'`, and it is the raw line with exactly one trailing `'\r'` removed when there is one |
| StreamHandler.LineEndingsAgree | src/utils.cpp:10-16 | a line ended by LF and the same line ended by CRLF read back equal, and the next line starts right after the terminator; a line of only "\r" reads as "" |
| StreamHandler.GetLine | src/utils.cpp:10-16 | `get_line` on a stream that is not good fails and returns the old line less one trailing CR; on a good stream it fails exactly at end of input, returning "" with eofbit set; on success returns the line at the old position without its CR and leaves the position at the next line |
| StreamHandler.GetNextNonBlankLine | src/utils.cpp:18-37 | failure if and only if every remaining line is blank, and then the line is "", the input is consumed and eofbit is set (or kept, on a stream that was not good); on success the line is the first non-blank one, every line before it in the call was blank, the stream is just past it, and eofbit is set exactly when that line had no line feed |
| StreamHandler.SkipToNextBlankLine | src/utils.cpp:39-52 | failure if and only if no remaining line is blank, and then the line is "", the input is consumed and eofbit is set (or kept, on a stream that was not good); on success the line is the first blank one, every line before it in the call was not blank, the stream is just past it, and eofbit is set exactly when that line had no line feed |
| StreamHandler.RunExtend | src/utils.cpp:25-36 | one more line of the kind a scan skips extends the run it has passed over (the scan loop's invariant) |
| StreamHandler.RunToEndDecides | src/utils.cpp:28-30 | if every line up to the end is of one kind, so is the line at which any run from the same start ends |
| StreamHandler.RunStopUnique | src/utils.cpp:40-51 | a scan can stop at only one line: two runs from the same start that both reach a line of the other kind reach the same line |
| StreamHandler.RunStopsBeforeEnd | src/utils.cpp:43-45 | a scan that finds the line it looks for does not run out of input |
| StreamHandler.ExampleLines | src/utils.cpp:40-51 | in lines "a", "b", "", "c" the first two are not blank and the third, at index 4, is empty and followed by "c" at 5 |
| StreamHandler.SkipExample | src/utils.cpp:39-52 | run on the lines "a", "b", "", "c", `skip_to_next_blank_line` succeeds with line "", leaves the stream at "c" and eofbit clear |
| UtilsString.TokensFrom | include/libdbc/utils/utils.hpp:135-136 | the tokens the `getline` loop delivers from a position: none exactly at the end of input, never more than the characters left |
| UtilsString.Tokens | include/libdbc/utils/utils.hpp:131-138 | split appends no token exactly for the empty string, and never more tokens than the string has characters |
| UtilsString.Trim | include/libdbc/utils/utils.hpp:128 | `String::trim(line)` equals `Utils::trim(line)` |
| UtilsString.Split | include/libdbc/utils/utils.hpp:131-138 | the container comes back as its old elements, unchanged, followed by the tokens of the string; an empty string appends nothing; the delimiter defaults to a space |
| UtilsString.SplitExample | include/libdbc/utils/utils.hpp:131 | with the default delimiter, "a b" appended to ["x"] gives ["x", "a", "b"] |
| UtilsString.TokensHaveNoDelim | include/libdbc/utils/utils.hpp:135-136 | no appended token contains the delimiter |
| UtilsString.JoinTokens | include/libdbc/utils/utils.hpp:131-138 | "" has no tokens; otherwise the tokens joined with the delimiter give the string back, less one trailing delimiter when it ends with one |
| UtilsString.TokensOfJoin | include/libdbc/utils/utils.hpp:131-138 | delimiter-free tokens whose last one is not empty are exactly the tokens of their join |
| UtilsString.TokensExamples | include/libdbc/utils/utils.hpp:131-138 | "a,,b" splits to "a", "", "b" (inner empty token kept); ",a," splits to "", "a" (leading kept, one trailing dropped) |

## Left out

- `String::convert_to_double` (include/libdbc/utils/utils.hpp:140, src/utils.cpp:54-59): floating-point parsing done by the external fast_float library, which is not part of this model.
- include/libdbc/exceptions/error.hpp: exception classes with fixed messages, no logic.
- badbit, I/O errors, `max_size` limits and locales: a stream fails only as `std::getline` makes it fail on in-memory text. Whitespace is the "C"-locale `isspace` set. The undefined behaviour of passing a negative `char` to `isspace` is not modelled.
- Templates and `reinterpret_cast`: strings are sequences of characters; a value of type `T` is the sequence of its `sizeof(T)` bytes in memory order (`seq<bv8>`).
- The caller's container in `String::split` is a sequence passed in and handed back, so aliasing of the container and element types other than strings are not modelled.
- In the three `StreamHandler` functions the caller's line buffer is passed in and the new line handed back, and the returned `std::istream&` is the stream object itself, whose state the contracts describe; the position at which a successful scan's line began is a ghost out-parameter.
- `getline` on a stream that is not good leaves the out-string unchanged (the sentry fails before anything is cleared), as the C++ standard library specifies; `get_line` then still removes a trailing `'\r'` from that old string, and the scanners replace it with "" anyway.
