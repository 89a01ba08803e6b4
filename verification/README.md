# Bounded printf and PreAllocString, modelled in Dafny

This project models two pieces of a small embedded C++ string library:

- `Printf_args` (src/Printf.cpp) is a bounded formatter. It writes a format
  string with the directives `%%`, `%c`, `%d`, `%u`, `%x`, `%b` and `%s`
  into the buffer range `[dst, end)`, puts a terminator at the cursor and
  returns the cursor. It returns nullptr for invalid pointers, for a null
  `%s` argument and for an unknown conversion character. Its digit helpers
  are `power`, `intToCStrInplaceImpl`, the signed and unsigned
  `intToDecimalCStrInplace`, `intToHexCStrInplace` and
  `intToBinaryCStrInplace`.
- `PreAllocString<N>` (include/PreAllocString.h) is a fixed-capacity string.
  It holds a `char arr[N]` and a `length`, and offers assignment, append,
  indexing, `Empty`, `AddWhiteSpace` and `AddFormat`, which formats into
  the free part of the array through `Printf_args`.

The project is organised as follows:

- **Buffers and C strings.** A buffer is a `seq<char>`. A pointer into it
  is an index, with `Option<nat>` where it can be null. A C string is a
  `seq<char>` read up to its first `'\0'` or its end (module `CStrings`).
- **Digits** (module `Digits`). This module defines `Pow`, the digit
  characters and the positional value of a digit string. `MaxPower` is the
  integer digit count. `PowerDigits` is the digit loop run without a
  bound. `ToDigits` is the digit string of a value. The round trip is
  proved in both directions: `FromDigits(ToDigits(v)) == v`, and
  `ToDigits(FromDigits(s)) == s` for every canonical digit string `s`.
- **Reference meaning** (module `FormatSpec`). `Render` gives the
  unbounded text a format stands for, with each directive replaced by its
  expansion (`Expand`). It also records whether an error directive cuts the
  text short.
- **The formatter** (module `Printf`). Each helper of src/Printf.cpp is a
  function on the buffer. The `for` loop of `Printf_args` is the recursive
  `FormatLoop`. Every writer has a frame condition: it writes only inside
  its range.
- **Main theorem** (module `PrintfTheorems`). `PrintfAgreesWithRender`
  proves that the bounded loop's output is the longest prefix of the
  reference rendering that fits. It fails exactly when an error directive
  is reached with room left. The theorem holds whenever the rendering fits,
  or when the format has no `%x`/`%b` directive. The format is read
  directive by directive, so the `x` in a literal `"%%x"` is plain text
  (`Scenarios.LiteralPercentBeforeX`). The one exception is a
  `%x`/`%b` directive with only one free position: it writes nothing, and
  formatting goes on after it.
- **The string type** (modules `PreAllocStrings` and
  `PreAllocStringTheorems`). `PreAllocString` is a datatype
  `(arr, length)`, and every member function is a pure function from old
  to new state. The theorems cover:
  - the invariant that every mutation sequence keeps;
  - the overflow policy of each mutator;
  - `AddFormat` against the reference rendering.
- **Concrete scenarios** (module `Scenarios`). These are the documented
  outputs, the error and short-buffer behaviour, the two findings below,
  and a capacity-8 session.

Where the intended contract of the library and its code differ, the code
is modelled:

- `AddFormat` commits truncated output. When the formatted text does not
  fit, the first characters that fit are kept and `length` grows by them
  (`Scenarios.CapacityEightSession`).
- The constructor sets `length` to 0 but does not write `arr[0]`. A fresh
  string therefore satisfies the terminator invariant only if its storage
  already starts with `'\0'` (`PreAllocStrings.Create`).
- `operator+=(const char*)` caps the length of the right-hand side at
  `N - 1` with `strnlen`. On a non-empty string it is all-or-nothing. On an
  empty string, a longer right-hand side is truncated to `N - 1` characters
  (`PreAllocStringTheorems.AppendCStrTruncatesWhenEmpty`).
- `%x` and `%b` need two free positions for their `0x`/`0b` tag. With one
  free position they write nothing and do not move the cursor, and the next
  format character is written there instead
  (`Scenarios.RadixTagNeedsTwoSlots`).
- An error directive that lies after the point where the buffer fills is
  never reached, and the call succeeds (`Scenarios.ErrorPastTheEndIsIgnored`).

## Model

| member | source | states |
|---|---|---|
| Digits.Pow | src/Printf.cpp:10-20 | the integer power is positive for a positive base |
| Digits.DigitChar | src/Printf.cpp:33-37 | a digit below 16 becomes '0'..'9' for values below 10 and 'a'..'f' otherwise, and reads back as the same digit |
| Digits.MaxPower | src/Printf.cpp:25-26 | the digit count k satisfies radix^k <= val < radix^(k+1), and k is 0 for val 0 |
| Digits.MaxPowerUnique | src/Printf.cpp:25-26 | any k with radix^k <= val < radix^(k+1) is MaxPower(val) |
| Digits.PowerDigits | src/Printf.cpp:28-41 | the loop without a bound yields exactly n characters, one per power radix^(n-1) down to radix^0 (their values: Digits.PowerDigitsDenote) |
| Digits.ToDigits | src/Printf.cpp:22-44 | the digit string of val has MaxPower(val) + 1 characters (its value and canonical form: Digits.ToDigitsCanonical) |
| Digits.PowerDigitsDenote | src/Printf.cpp:28-41 | n digits produced by dividing by descending powers are valid digits of the radix, and their positional value is val when val < radix^n |
| Digits.PowerDigitsOfValue | src/Printf.cpp:28-41 | producing |s| digits from the value of a digit string s gives s back |
| Digits.ToDigitsCanonical | src/Printf.cpp:22-44 | the digit string of val has MaxPower(val) + 1 valid digits, denotes val, and starts with '0' exactly when val is 0 |
| Digits.ToDigitsLeading | src/Printf.cpp:28-37 | the leading digit is '0' exactly when val is 0 |
| Digits.DigitsRoundTrip | src/Printf.cpp:22-44 | every canonical digit string (no leading zero, or just "0") is the digit string of its own value |
| Digits.FromDigitsBounds | src/Printf.cpp:28-41 | a string of n valid digits denotes a value below radix^n, and a leading non-zero digit makes the value at least radix^(n-1) |
| Digits.DigitCharValue | src/Printf.cpp:33-37 | the character written for a digit below 16 reads back as that digit |
| Printf.DigitLoop | src/Printf.cpp:28-41 | the loop writes the first min(end - dst, number of digits) digits at dst, one per position, and nothing else |
| Printf.IntToCStrFromPower | src/Printf.cpp:22-44 | entered with a given maxPower, writes min(end - dst, maxPower + 1) quotient digits of the descending powers, and nothing when maxPower is negative |
| Printf.IntToCStrInplaceImpl | src/Printf.cpp:22-44 | writes the first min(end - dst, number of digits) characters of the digit string of val, and nothing else |
| Printf.PrefixThenDigits | src/Printf.cpp:51-90 | a tag written first and the digits written after it form the leading part of tag + digits that fits, and nothing else is written |
| Printf.IntToDecimalSigned | src/Printf.cpp:51-66 | writes the leading part of '-' followed by the digits of abs(val) that fits, and writes nothing when dst == end |
| Printf.IntToPrefixed | src/Printf.cpp:68-90 | with fewer than two free positions writes nothing and returns 0; otherwise writes the leading part of "0x"/"0b" plus the digits that fits |
| Printf.StrNCopy | src/Printf.cpp:129-132 | copies the C string up to its terminator or n characters, pads with '\0' to exactly n positions, and touches nothing else |
| Printf.Convert | src/Printf.cpp:101-136 | aborts exactly for a null %s or an unknown conversion character, without writing; otherwise writes only in [dst, end), stays within end, and consumes one argument (none for %%) |
| Printf.ConvertWritesExpansion | src/Printf.cpp:105-133 | each directive writes the longest prefix of its expansion that fits, and the cursor moves past exactly that prefix |
| Printf.FormatLoop | src/Printf.cpp:100-143 | writes only in [dst, end]; a returned cursor lies in [dst, end] and holds the terminator |
| Printf.PrintfArgs | src/Printf.cpp:92-144 | a null dst, end or fmt, or end < dst, gives nullptr with no write; otherwise it writes only in [dst, end] and a returned cursor lies there and is terminated |
| PrintfTheorems.PrintfAgreesWithRender | src/Printf.cpp:92-144 | the output is the first min(rendering length, end - dst) characters of the reference rendering, and the call fails exactly when an error directive is reached with room left |
| PrintfTheorems.LoopAgreesWithRender | src/Printf.cpp:100-143 | the same from any format index and cursor, carried through plain characters and directives; like the main theorem it needs arguments for every later directive, and covers %x/%b only when the rest of the rendering fits |
| PrintfTheorems.RenderPlain | src/Printf.cpp:137-140 | a format without '%' renders as its own characters, needs no arguments and holds no %x/%b directive |
| PrintfTheorems.PlainFormatCopied | src/Printf.cpp:100-142 | without '%' the output is the first min(strlen(fmt), end - dst) characters of fmt, terminated, and never an error |
| FormatSpec.Expand | src/Printf.cpp:105-135 | only the seven conversion characters expand; %x and %b give at least three characters; one argument is consumed except for %% |
| FormatSpec.LowByte | src/Printf.cpp:112 | the character %c writes is below 256 and congruent to the int argument modulo 256 |
| FormatSpec.SignedDecimal | src/Printf.cpp:51-66 | the decimal text starts with '-' exactly for negative values |
| FormatSpec.RadixTag | src/Printf.cpp:70-73 | the tag is two characters and starts with '0' |
| FormatSpec.Prefixed | src/Printf.cpp:68-90 | the hex and binary texts start with the radix tag and hold at least one digit after it |
| CStrings.StrLen | src/Printf.cpp:129 | the length is the index of the first '\0' or the end, with no '\0' before it |
| CStrings.StrNLen | include/PreAllocString.h:81 | strnlen is min(max, strlen) |
| PreAllocStrings.Create | include/PreAllocString.h:35-38 | a new string is empty over the given storage, and is terminated exactly when that storage starts with '\0' |
| PreAllocStrings.Index | include/PreAllocString.h:44-51 | indexes 0..length-1 give the text, index length gives the terminator, and any other index gives arr[0] |
| PreAllocStrings.GetLength | include/PreAllocString.h:54 | the length is the number of characters held, below the capacity |
| PreAllocStrings.SizeOf | include/PreAllocString.h:57 | the capacity exceeds 1 and the length |
| PreAllocStrings.Empty | include/PreAllocString.h:60-64 | the result is the empty terminated string; only arr[0] changes; emptying an empty string changes nothing |
| PreAllocStrings.AssignChar | include/PreAllocString.h:66-76 | on an empty string the result is [c] and nothing past arr[1] changes; otherwise only arr[0] is replaced and the length is kept |
| PreAllocStrings.AssignCStr | include/PreAllocString.h:78-88 | null changes nothing; otherwise the text becomes the first min(strlen, N-1) characters of rhs, terminated, and the array past the terminator is kept |
| PreAllocStrings.AppendChar | include/PreAllocString.h:92-101 | appends c and re-terminates when length + 1 < N, and otherwise changes nothing |
| PreAllocStrings.AddWhiteSpace | include/PreAllocString.h:129 | appends a space under the same policy, keeping the array size and everything past the new terminator; a full string is left as it is |
| PreAllocStrings.AppendCStr | include/PreAllocString.h:103-116 | null changes nothing; the strnlen-capped rhs is appended when it fits, with nothing past the new terminator changed, and otherwise nothing changes |
| PreAllocStrings.FormatInto | include/PreAllocString.h:123 | the formatter call into [arr + length, arr + N - 1] keeps the held text and the array size, and a returned cursor lies in that range and holds the terminator |
| PreAllocStrings.AddFormat | include/PreAllocString.h:118-127 | a null format changes nothing; otherwise (given arguments for every directive and a successful formatter call) the array is what the formatter left and the new length is the cursor it returned, so the string stays terminated, the old text is a prefix of the new one, and the capacity is kept |
| PreAllocStringTheorems.Apply | include/PreAllocString.h:59-129 | every mutator keeps the capacity and length < N |
| PreAllocStringTheorems.ApplyAllKeepsValid | include/PreAllocString.h:59-129 | any sequence of mutations keeps length < N and the terminator at arr[length] |
| PreAllocStringTheorems.AssignCharKeepsTail | include/PreAllocString.h:66-76 | assigning a char to a string of two or more characters keeps the tail, so the result is not [c] |
| PreAllocStringTheorems.AppendCStrAllOrNothing | include/PreAllocString.h:103-116 | on a non-empty string the whole C string is appended if it fits, and otherwise nothing changes |
| PreAllocStringTheorems.AppendCStrTruncatesWhenEmpty | include/PreAllocString.h:103-116 | on an empty string a C string at least N long contributes its first N-1 characters |
| PreAllocStringTheorems.AddFormatAppendsRendered | include/PreAllocString.h:118-127 | when the rendering is complete or at least fills the free space (so the formatter succeeds, which it proves), AddFormat appends the first min(rendering length, N-1-length) characters of the reference rendering; a format with %x/%b is covered only when its whole rendering fits |
| Scenarios.HexOutput | src/Printf.cpp:80-90 | "%x" of 255 writes "0xff" |
| Scenarios.BinaryOutput | src/Printf.cpp:68-78 | "%b" of 5 writes "0b101" |
| Scenarios.NegativeDecimalOutput | src/Printf.cpp:51-66 | "%d" of -12345 writes "-12345" |
| Scenarios.ZeroDecimalOutput | src/Printf.cpp:116 | "%d" of 0 writes "0" in the corrected model |
| Scenarios.ErrorDirectives | src/Printf.cpp:124-135 | a null %s, an unknown conversion character and a trailing '%' give nullptr when reached with room left |
| Scenarios.ErrorPastTheEndIsIgnored | src/Printf.cpp:100 | an unknown directive after the buffer fills is not reached, and the call succeeds with the cut text |
| Scenarios.LiteralPercentBeforeX | src/Printf.cpp:105-108 | "%%xy" holds no %x directive, so with two free positions it writes the cut "%x" and succeeds |
| Scenarios.RadixTagNeedsTwoSlots | src/Printf.cpp:82-87 | with one free position %x writes nothing and the next format character takes that position |
| Scenarios.DigitCountRoundsDown | src/Printf.cpp:26-41 | entered with power 2, the loop writes "a00" for 1000, while the corrected routine writes "1000" |
| Scenarios.ZeroHasNoDigits | src/Printf.cpp:26-41 | entered with a negative power, the loop writes nothing for 0, while the corrected routine writes "0" |
| Scenarios.CapacityEightSession | include/PreAllocString.h:118-127 | in a capacity-8 string, "abc" plus "%d" of 12 gives "abc12"; "%d" of 1234567 then commits "12", giving "abc1212" of length 7 |

## Left out

- The `Printf` wrapper (src/Printf.cpp:146-153) and the `va_list` plumbing
  are left out. The variadic arguments are an explicit list of tagged
  values (`FormatSpec.Arg`).
- The floating-point digit count `std::log(val) / std::log(radix)` is
  replaced by the integer `Digits.MaxPower`. The two findings below show
  where the two differ.
- Printf.IntToDecimalSigned: requires val != INT_MIN. `std::abs(INT_MIN)`
  is undefined behaviour in C++, so `%d` of INT_MIN is excluded through
  `FormatSpec.DirectiveFits`.
- Printf.PrintfArgs, Printf.FormatLoop, PrintfTheorems.PrintfAgreesWithRender:
  `FormatSpec.ArgsFit` asks for a matching argument for every directive in
  the format. This includes directives after the point where the buffer
  fills, whose arguments the source never reads. Reading a missing or
  mistyped argument is undefined behaviour, and which directives are
  reached depends on the buffer, so the stronger precondition is used.
- PrintfTheorems.LoopAgreesWithRender: the same `ArgsFit` precondition,
  from the format index it starts at.
- PreAllocStrings.AddFormat: requires `ArgsFit` over the whole format, for
  the same reason; the argument list is passed on to the formatter.
- PreAllocStringTheorems.AddFormatAppendsRendered: requires `ArgsFit` over
  the whole format, for the same reason.
- PrintfTheorems.PrintfAgreesWithRender: a format with a `%x`/`%b` directive is covered
  only when its whole rendering fits. The short-buffer case, where the tag
  is dropped, is shown concretely by `Scenarios.RadixTagNeedsTwoSlots`.
- PrintfTheorems.LoopAgreesWithRender: a format with a `%x`/`%b` directive from the
  start index on is covered only when the rendering from there fits the
  room left, as for the main theorem.
- PreAllocStringTheorems.AddFormatAppendsRendered: a format with a `%x`/`%b` directive
  is covered only when its whole rendering fits the free space, as for the
  main theorem.
- PreAllocStringTheorems.AddFormatAppendsRendered: covers only renderings
  that are complete or at least fill the free space, the cases where the
  formatter succeeds. When an error directive is reached with room left the
  formatter returns nullptr and AddFormat is undefined behaviour (below).
- PreAllocStrings.AddFormat: requires that the formatter call succeeds.
  On failure the source subtracts a null cursor from `&arr[length]`, which
  is undefined behaviour.
- The `%s` case stores `strlen` in an `int` (src/Printf.cpp:104, 129), and
  this narrowing is not modelled. A length L becomes L modulo 2^32, read as
  a signed `int`. For L from `INT_MAX + 1` up to 2^32 that value is
  negative, and `std::min<uintptr_t>` at line 132 converts it to a huge
  unsigned value, so the cursor still moves by `end - dst`, as in the
  model. Only `%s` arguments of 2^32 characters or more whose length modulo
  2^32 is at most `INT_MAX` and below `end - dst` move the cursor by that
  residue instead of `end - dst`.
- Aliasing is not modelled. The format, the `%s` arguments and the
  right-hand side of `operator=`/`operator+=` are values separate from the
  destination array, while in the source they are pointers that may point
  into it (`operator const char*`, include/PreAllocString.h:40, hands out
  `arr`). Two cases differ. `s.AddFormat(s)` is defined in the source: the
  loop at src/Printf.cpp:99-140 reads back the characters it has just
  written over the old terminator, so "ab" with N = 8 becomes "abababa",
  where the model gives "abab". An overlapping copy, such as `s = &s[1]`
  or a `%s` of the string into its own free space, is undefined behaviour
  in `memcpy`/`strncpy`, and the model copies from the value before the
  write.
- `%c` stores the low byte of its `int` argument (`FormatSpec.LowByte`).
  The signedness of `char` is not modelled.
- The conversions to `const char*` and `const void*`
  (include/PreAllocString.h:40-42) only expose the array. The model
  exposes it as `arr` and `Text`.
- `operator=(char* const)` (include/PreAllocString.h:90) forwards to
  `operator=(const char*)` and is covered by `PreAllocStrings.AssignCStr`.
- The `CREATE` macro (include/PreAllocString.h:136) and the declarations in
  include/Printf.h add no behaviour.
- The `static_assert` that N > 1 is the `Sized` precondition.
- Uninitialised storage is a parameter (`storage`) of `Create`.

## Findings

| source | as written | input that shows it | evidently intended | confidence | as-written member | corrected member |
|---|---|---|---|---|---|---|
| src/Printf.cpp:26 | the digit count is the floating-point quotient log(val) / log(radix) truncated to int | "%d" with 1000: in IEEE-754 double the quotient is 2.9999999999999996, so maxPower is 2 and the loop writes "a00" (digit 10, then 0, 0); likewise 1000000 gives 5.999999999999999 and "a00000", and 1000000000 gives 8.999999999999998 and "a00000000"; exact powers of 2 and 16 below 2^32 are not affected | "1000": the largest k with 10^k <= 1000, which is 3 | not executed; depends on the rounding of the math library's log, and holds for correctly rounded log | Printf.IntToCStrFromPower (shown by Scenarios.DigitCountRoundsDown) | Printf.IntToCStrInplaceImpl |
| src/Printf.cpp:26 | for val == 0, log(0) is minus infinity, and converting it to int is undefined; x86 gives INT_MIN, so maxPower is negative | "%d" or "%u" with 0 writes no digit, and "%x" with 0 writes just "0x" | "0" | not executed; undefined behaviour, and the result depends on the compiler and target | Printf.IntToCStrFromPower (shown by Scenarios.ZeroHasNoDigits) | Printf.IntToCStrInplaceImpl |
