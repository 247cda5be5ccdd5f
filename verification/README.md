# A verified model of the OSDev 2 loader, libk and shell

This project models, in Dafny, the parts of the kernel where the reasoning is
hard, and proves what they promise:

- the UEFI loader's `load_elf`: two passes over the program headers, the dynamic
  scan and in-place `R_AARCH64_RELATIVE` relocation, over a 2^64-byte memory in
  which every address computation wraps as `UINT64` does (chapter 5 of the System V
  gABI; the Dynamic Relocations section of ELF for the Arm 64-bit Architecture);
- number printing and parsing: `divmod_u64`, `__int_str`, `strtoul` and the
  directive loop of `vprintf`, against the text that ISO C11 asks for (sections
  7.21.6.1 and 7.22.1.4);
- `strtok` with its hidden position (section 7.24.5.8 of ISO C11), on top of
  `strspn`, `strpbrk` and `strchr`;
- the i386 VGA console with its overlapping `memmove`, against an endless page;
- the shell's line editor, its history and commands, and the keyboard state machine,
  up to theorems that go from scancodes to the byte that `poke` stores and to what the
  arrow keys really do.

`dafny verify dfyconfig.toml` checks everything.

## How it is organised

| file | content |
|---|---|
| `Words`, `Numerals` | fixed-width quantities; positional notation |
| `AddressSpace`, `ElfFormat`, `ElfLayout` | a 64-bit memory as a value; the ELF fields the loader reads, and the bytes in which they are written |
| `ElfImage`, `ElfReloc`, `PositionIndependence` | span, image, relocation, and the theorems about them |
| `ElfExample` | a small file, byte by byte, that the loader accepts and relocates, and a variant that it does not relocate |
| `Loader` | `load_elf` itself: memory writes, pool blocks, page requests |
| `CStrings`, `Tokens` | NUL-terminated strings, `mem*`/`str*` routines, `strtok` |
| `DivMod`, `IntFormat`, `Strtoul`, `RoundTrip` | division, printing, parsing, and the two against each other |
| `FloatFormat`, `Printf`, `PrintfFacts`, `Vprintf` | the renderer, what its conversions mean, and the loop that refines it |
| `DirectiveGrammar`, `FloatFacts`, `StandardPrintf` | the standard's conversion specifications and texts, and exactly when `vprintf` agrees |
| `Console` | the screen, the page, and the device |
| `ShellSpec`, `Session`, `Editor`, `Shell` | commands and key sessions on values; the line buffer and history; the shell object that refines them |
| `Keyboard`, `EndToEnd` | scancodes, and everything together |

Code that changes state in place is a class or a method on arrays (`Loader`,
`Console.Vga`, `Tokens.Tokeniser`, `Shell.Shell`, `Keyboard.Device`, `IntFormat.IntStr`,
`Strtoul.Strtoul`, `Vprintf.Vprintf`); each such method is proved equal to a
specification function, and the theorems are about those functions.

## Where the code departs from its evident purpose

The model follows the code. Where a promised property fails, the exact condition
under which it holds is proved instead.

- `divmod_u64` keeps the doubled divisor in 32 bits. It divides exactly when some
  power of two carries the divisor past n/2 within 32 bits (`DivMod.DivisionIff`):
  always below 2^32, never from 2^33 on, where its first loop does not end
  (`DivMod.NeverStops`); 2^32 can be divided by 10 but not by 16 (`DivMod.TwoTo32`).
- `strtoul` meets ISO C11 on every string except behind a bare `0x`, whose pointer it
  does not move (`Strtoul.C11Iff`, and "0x" itself in `Strtoul.BareHexPrefix`).
- Zero padding in front of a sign, and zeros appended by `-` with `0`, spoil the number;
  what a reader of the text gets in every case is `RoundTrip.ParseOfRendered`, and
  exactly when it is the printed value is `RoundTrip.RoundTripIff` (failing inputs:
  `RoundTrip.PaddingSpoils`).
- A conversion specification is read as it is spelled exactly when its length modifier is
  not `hh` (`DirectiveGrammar.SpellingReadIff`). With `hh` nothing is converted and the
  conversion letter is printed (`StandardPrintf.DoubleHPrintsLetter`); a directive that ends
  in `%` prints nothing (`PrintfFacts.PercentPrintsNothing`).
- Precision is read and then ignored by d, i, u, o, X and s; a negative `*` width is no
  `-` flag; `+` and blank also act on unsigned numbers; `0` is not switched off by `-` or by
  a precision and pads in front of a sign; `#` prints in front of the padding, in lower case,
  and before 0; c and s ignore the width; `size_t` and the 64-bit types are printed as signed
  and `ptrdiff_t` as unsigned. What remains right, including texts that come out right by
  accident such as `%05.5d`, is exactly `StandardPrintf.MeetsStandard`, for every
  specification and argument that the standard defines (`StandardPrintf.StandardIff`);
  `StandardPrintf.PrecisionIff`, `StringPrecisionIff` and `StarWidthIff` say it for `%.nd`,
  `%.ns` and `%*d`, and `PrecisionIgnored` and `NegativeWidthIgnored` are inputs that fail.
- The bare `%x` prints base 17 and is right exactly for 0 to 9 (`PrintfFacts.HexConversionIff`).
- A parser reads a number back behind the prefix of `#` exactly when the padded text starts
  with a digit, or is 0 (`PrintfFacts.IntegerConversion`).
- `%f` and `%.nf` print the decimals as an integer: the text is right exactly when rounding
  leaves them with no zero in front and no carry, and hardly ever for negative numbers
  (`StandardPrintf.FixedConversionIff`); 1.05 with two decimals prints `1.5`
  (`FloatFacts.LostZero`) and 0.99 with one prints `0.1` (`FloatFacts.LostCarry`). `%e` is
  right exactly when its mantissa is and starts with a digit that is not zero, which leaves
  out numbers between -1 and 1 and those of -10 and below
  (`StandardPrintf.ScientificConversionIff`), and its field is short by the exponent
  (`FloatFacts.FloatField`).
- `clrline` clears 80 bytes, half a row: the row and the line agree after every key of an
  editing session exactly when no backspace was pressed on a line of 40 or more
  characters (`Session.RedrawIff`; forty of them in `Session.FortyCharacters`).
- A command that has been run comes back from the history only up to the end of its first
  word, so the whole line exactly when it ends there (`Editor.RecallIff`); run again it has
  lost its arguments (`EndToEnd.UpArrowReruns`). Every arrow key's release, and the left and
  right arrows' press, insert a NUL: what is typed behind it is neither shown nor run
  (`EndToEnd.SidewaysHides`).
- Recalling a line does not clear the row: what stood there before remains visible behind it
  exactly when it was longer (`Editor.RecallRowIff`).
- A PIE loaded at address 0 whose PT_DYNAMIC starts the span is not relocated, because its
  dynamic section looks like a null pointer; that is the only such case
  (`PositionIndependence.NullDynamicSkipped`, `PositionIndependence.DynamicNotNull`; a file
  with a relocation that is lost is `ElfExample.ExampleSkipped`).
- The second pass stays inside the allocation exactly when no segment's file part runs
  past the span (`PositionIndependence.ContainedIff`); `p_filesz` is never compared with
  `p_memsz` by the loader, and 16 file bytes for 8 of memory overrun
  (`PositionIndependence.FilePartRunsOver`).
- The RELA table is always walked in 24-byte steps, whatever DT_RELAENT says, so position
  independence needs no condition on DT_RELAENT.

## Model

| member | source | states |
|---|---|---|
| PositionIndependence.PositionIndependent | efi/main.c:224-343 | a well-formed PIE loaded at any two addresses where its span fits and its dynamic section is not at 0, into memories with any other contents, agrees byte for byte at equal offsets, except that every relocated word and the entry point differ by exactly addr' - addr modulo 2^64 |
| PositionIndependence.PieMemoryExact | efi/main.c:224-339 | after load and relocation nothing outside the allocation has changed, every unrelocated byte of the span is the file's, and each relocated word is base_addr plus the addend of the last entry aimed at it |
| PositionIndependence.DynamicNotNull | efi/main.c:305-310 | the dynamic section is taken for NULL exactly when the allocation is at 0 and the section starts the span |
| PositionIndependence.NullDynamicSkipped | efi/main.c:305-310 | in that case the image stays unrelocated: every byte of the span is the file's, and nothing else changes |
| PositionIndependence.ContainedIff | efi/main.c:208-289 | with no p_vaddr + p_memsz overflowing, all copies and zero-fills lie in [addr, addr + total_size) if and only if no segment's file part ends beyond the span, even when base_addr has wrapped |
| PositionIndependence.FilePartRunsOver | efi/main.c:280-283 | a header with 16 file bytes and 8 memory bytes writes past the allocation, at every address |
| PositionIndependence.OnlyWritesChange | efi/main.c:253-291 | for any header table, the second pass changes no byte that no segment writes |
| PositionIndependence.FixedExact | efi/main.c:253-291 | a fixed-address load puts every segment byte in place and changes nothing else, whatever the header order |
| PositionIndependence.WrittenSegment | efi/main.c:253-291 | from bytes to memory: loading a fixed-address file puts byte p_offset + k of the file at p_vaddr + k below p_filesz, and zero from there to p_memsz |
| PositionIndependence.FixedAndPieAgree | efi/main.c:246-289 | fixed and position-independent loading agree on every byte of every segment |
| PositionIndependence.Displacement | efi/main.c:245-342 | what is base-relative moves by addr' - addr modulo 2^64, although base_addr may wrap |
| ElfImage.PieViewExact | efi/main.c:242-291 | before relocation the span holds file bytes, zeros in BSS and zeros in gaps, and memory outside it is unchanged |
| ElfLayout.FileHeaderRead | efi/main.c:182-210 | of a file header written field by field in the order of the gABI, the loader reads magic, class, type, entry and the place, size and number of the program headers as they were written |
| ElfLayout.ProgramHeaderRead | efi/main.c:209-217 | of the 56 bytes of each program header it reads type, offset, virtual address, file size and memory size as they were written |
| ElfLayout.DynamicRead | efi/main.c:312-319 | tag and value of a dynamic entry are read as they were written |
| ElfLayout.RelocationRead | efi/main.c:324-332 | offset and addend of a relocation entry are read as written, and it is RELATIVE if and only if the low 32 bits of r_info are 1027 |
| ElfImage.SegmentsExact | efi/main.c:253-291 | with disjoint segments every segment byte ends up in place in any order of headers, and uncovered bytes keep their value |
| ElfImage.SegmentEffect | efi/main.c:256-290 | one segment, with any field values: file bytes, then zeros, then nothing |
| ElfImage.SpanBounds | efi/main.c:209-220 | the first pass computes a lower and upper bound of all PT_LOADs that are attained |
| ElfImage.SpanOfLoads | efi/main.c:208-222 | total_size is the mathematical size of the span and every segment byte lies inside it |
| ElfReloc.RelocateExact | efi/main.c:324-334 | although the table is read from the image being patched, every entry is applied as the file has it: untouched bytes are kept and each target holds base plus the last addend |
| ElfReloc.DynAgrees | efi/main.c:300-320 | the scan of the loaded image finds the same table, size and entry size as the file |
| ElfReloc.ScanCollects | efi/main.c:312-320 | the scan returns the value of the last entry with tag 7, 8 and 9 each, and 0 without one |
| ElfReloc.CountIs | efi/main.c:322-325 | no table, size or entry size means no relocation; otherwise size / entry size entries |
| ElfReloc.FirstDynamic | efi/main.c:301-308 | the first PT_DYNAMIC and no earlier one |
| ElfExample.WellFormedExample | efi/main.c:182-339 | a concrete file, given as bytes, all fields different, has magic, class and type as the loader checks them, its own program headers are well formed, and it has three relocation entries |
| ElfExample.ExampleLoads | efi/main.c:124-354 | when the firmware grants its requests that file is loaded at any address: bytes of the dynamic table and of the BSS, the relocated words and the one left alone, base and entry point, as numbers |
| ElfExample.ExampleSkipped | efi/main.c:305-338 | a variant whose dynamic table starts the span, loaded at address 0: it has relocations, and its word stays 0 instead of becoming the base plus 5 |
| AddressSpace.LoadStore | efi/main.c:331-332 | a 64-bit store read back gives the word |
| AddressSpace.FromStore64 | efi/main.c:331-332 | storing at base + offset modulo 2^64 is storing at the offset in the view from base |
| Loader.LoadElf | efi/main.c:124-354 | for all firmware answers: the refusal status and untouched memory, or the loaded memory, entry, base and page requests; the sizes of the pool requests; with a FreePool at each of the exits, every pool block is freed exactly once and only live blocks are read |
| Loader.RefusedFiles | efi/main.c:184-206 | which files are refused, byte by byte, with the status codes as numbers |
| Loader.FirstErrorReturned | efi/main.c:141-180 | the first answer with its top bit set is the status returned |
| Loader.FixedRequestsCover | efi/main.c:260-274 | every byte of every segment of a fixed-address file lies in pages that are asked for |
| Loader.FixedRequestsOnly | efi/main.c:260-274 | and nothing else is asked for, but for rounding up to pages |
| Loader.ReadFile | efi/main.c:141-180 | the first error and the sizes asked for; the block of the file information is freed on every path, the file's block exactly when reading it fails |
| Loader.CheckFile | efi/main.c:184-206 | the status of the header checks, and the file's block freed exactly when one fails |
| Loader.LoadChecked | efi/main.c:208-354 | from a checked file to memory, entry and base on both paths, including both kinds of denied pages; the file's block is freed on each |
| Loader.LoadPass | efi/main.c:252-291 | the second pass equals the segment specification up to the first denied address, with exactly the page requests made so far, and frees the file's block exactly when it stops there |
| Loader.PlaceSegment | efi/main.c:257-289 | clear, copy and BSS of one segment at the wrapped destination |
| Loader.RelocationPass | efi/main.c:293-339 | the relocation phase equals its specification, including no dynamic section and a NULL one |
| Loader.ApplyRelocations | efi/main.c:324-334 | the loop equals the entry-by-entry specification |
| Loader.ScanDynamic | efi/main.c:311-320 | the walk collects what the entries before DT_NULL say |
| Loader.FindDynamic | efi/main.c:300-308 | the loop finds the first PT_DYNAMIC |
| Loader.Span | efi/main.c:208-220 | the loop computes the span |
| Loader.BootServices.AllocatePool | efi/main.c:141-172 | a failed allocation changes nothing, a successful one hands out a new live block |
| Loader.BootServices.FreePool | efi/main.c:157-162 | only a live block can be freed |
| Loader.PagesCover | efi/main.c:226-262 | EFI_SIZE_TO_PAGES covers the size by less than a page too much |
| Loader.GrantedPagesSuffice | efi/main.c:226-245 | any range of the pages asked for lets a well-formed PIE load, and no byte outside those pages changes |
| Words.WrappingArithmetic | efi/main.c:222-257 | the model's address arithmetic is UINT64 addition and subtraction modulo 2^64 |
| DivMod.DivisionIff | libk/stdio/printf.c:14-36 | the routine terminates with the true quotient and remainder if and only if no bit of the doubled divisor is lost |
| DivMod.DivModU64 | libk/stdio/printf.c:14-36 | the two loops compute the specified outcome on every input on which the first ends |
| DivMod.DividesWhenSafe | libk/stdio/printf.c:14-36 | termination and exact division where no bit is lost |
| DivMod.WrongWhenUnsafe | libk/stdio/printf.c:14-36 | where a bit is lost and the loop still ends, the quotient is too large |
| DivMod.NeverStops | libk/stdio/printf.c:20-23 | from 2^33 on the doubling guard stays true at every iteration |
| DivMod.SmallIsSafe | libk/stdio/printf.c:20-23 | below 2^32 no bit is lost for any divisor |
| DivMod.TwoTo32 | libk/stdio/printf.c:20-23 | 2^32 divides by 10 and not by 16 |
| Numerals.DigitsCanonical | libk/stdio/printf.c:54-58 | the digits denote the number, are in range and have no leading zero |
| Numerals.DigitsUnique | libk/stdio/printf.c:54-58 | they are the only such digits |
| IntFormat.IntStr | libk/stdio/printf.c:38-95 | the buffer ends up holding exactly sign, canonical digits and padding, with every buffer access in bounds for widths under 256 |
| IntFormat.DigitLoop | libk/stdio/printf.c:54-58 | repeated division yields the canonical digits in reverse |
| IntFormat.PadLeft | libk/stdio/printf.c:83-91 | the second buffer and two string copies put the padding in front |
| IntFormat.PadRight | libk/stdio/printf.c:78-82 | padding behind the text |
| IntFormat.RenderedShape | libk/stdio/printf.c:75-92 | padding and text side by side, total length the maximum of width and natural length, no NUL inside |
| IntFormat.NaturalLength | libk/stdio/printf.c:42-66 | at most 34 characters, so the 65-byte buffer suffices |
| Strtoul.Strtoul | libk/string/strtoul.c:4-57 | for every string, base 0 or 2 to 36 and word size: the value of the longest digit run, negated modulo 2^W after a minus, ULONG_MAX when it does not fit, and the end pointer past the run even then, or at the start without digits; no read beyond the terminator |
| Strtoul.C11Iff | libk/string/strtoul.c:15-56 | the result is the one ISO C11 prescribes, with white space, sign, prefix, digits, value and subject sequence stated on the text alone, if and only if there is no bare 0x |
| Strtoul.BareHexPrefix | libk/string/strtoul.c:25-56 | "0x" in base 16 fails the standard, for every word size |
| Strtoul.CutoffTest | libk/string/strtoul.c:31-42 | the cutoff and cutlim comparison is exactly acc * base + c > ULONG_MAX |
| Strtoul.DigitRun | libk/string/strtoul.c:33-49 | the loop accumulates the run's value or detects that it is too large |
| Strtoul.Prefix | libk/string/strtoul.c:15-30 | white space, sign, 0x and the base for 0 |
| RoundTrip.ParseOfRendered | libk/stdio/printf.c:38-95 | what strtoul returns for the printed text, for every value, base 2 to 16, flag, width and word size |
| RoundTrip.PrintParse | libk/stdio/printf.c:38-95 | with blanks, no padding, or zeros before an unsigned number, it is the value modulo 2^W |
| RoundTrip.RoundTripIff | libk/stdio/printf.c:76-92 | exactly when the round trip succeeds |
| RoundTrip.PaddingSpoils | libk/stdio/printf.c:76-92 | -5 padded with zeros to width 4 reads back as 0, and 5 padded behind to width 3 as 500 |
| Printf.RenderCompose | libk/stdio/printf.c:109-489 | f followed by g prints f's output and then g's on the arguments f left, and stores what both store, with g's counts behind f's |
| Printf.CountStored | libk/stdio/printf.c:377-412 | %n behind any format stores the number of characters printed so far |
| Printf.DirectiveExtend | libk/stdio/printf.c:129-207 | a complete directive is read the same with anything behind it |
| PrintfFacts.IntegerConversion | libk/stdio/printf.c:129-362 | for every directive text that ends in an integer conversion but %x, with any flags, width, stars and length, on a value the division handles and with padding that is blank or zeros before an unsigned number: it was not read as hh, takes one argument, and the output read back in the standard base and in any word that holds the value is the typed value; behind the prefix of # that is so if the padded number starts with a digit, and 0 is read otherwise |
| PrintfFacts.ConversionPrints | libk/stdio/printf.c:129-362 | what every such directive prints: the prefix of #, then sign, digits and padding, on exactly one argument |
| PrintfFacts.ArgumentAsTyped | libk/stdio/printf.c:235-360 | the printed value is congruent to the argument and in the range of its C type |
| PrintfFacts.HexConversionIff | libk/stdio/printf.c:225-233 | the output of the bare %x is the lower-case hexadecimal of the argument modulo 2^32 if and only if that is below 10 |
| PrintfFacts.AlternateHexIff | libk/stdio/printf.c:225-233 | %#x prints 0x and base-17 digits, and is right if and only if the value is 1 to 9 |
| PrintfFacts.AlternateElsewhere | libk/stdio/printf.c:211-232 | # changes no conversion but o, x, X and the floating ones |
| PrintfFacts.FixedConversions | libk/stdio/printf.c:418-460 | F, g and G print what f prints |
| PrintfFacts.PercentPrintsNothing | libk/stdio/printf.c:129-470 | every directive that ends in %, whatever stands between, prints nothing and takes only the arguments of its stars |
| PrintfFacts.DoubleHLeavesH | libk/stdio/printf.c:196-207 | a directive read with length H always has h for its conversion |
| PrintfFacts.PrefixedParse | libk/stdio/printf.c:212-232 | 0 or 0x in front of a padded number leaves its parsed value alone if it starts with a digit, and makes it 0 otherwise |
| DirectiveGrammar.SpellingReadIff | libk/stdio/printf.c:129-207 | a specification composed of flags, width, precision, length and conversion as the standard spells them is read as just that, with whatever follows, if and only if its length is not hh |
| DirectiveGrammar.SpellingRead | libk/stdio/printf.c:129-207 | what is read in every case: the meaning of each part, and an h left behind by hh |
| StandardPrintf.StandardIff | libk/stdio/printf.c:109-489 | for every specification for d, i, u, o, X, c, s or % and all arguments for which ISO C11 defines the conversion: output and arguments left are the standard's if and only if MeetsStandard holds, a condition on flags, width, precision, length, digit count and value |
| StandardPrintf.IntegerTextIff | libk/stdio/printf.c:38-95 | the standard's text of an integer, with precision, sign, prefix and field, is the text of the code if and only if SameText holds |
| StandardPrintf.StringIff | libk/stdio/printf.c:371-375 | a string printed as it is meets precision and width if and only if neither changes it, or blanks cut off are put back |
| StandardPrintf.ValuePassed | libk/stdio/printf.c:235-360 | an argument of the standard's type is handed on as it is, or, for unsigned z, ll and j above half the range and negative t, as a number of the other sign |
| StandardPrintf.PrecisionIff | libk/stdio/printf.c:180-194 | %.nd is right if and only if the number has at least n digits and is not 0 with n = 0 |
| StandardPrintf.StringPrecisionIff | libk/stdio/printf.c:371-375 | %.ns is right if and only if the string has at most n characters |
| StandardPrintf.StarWidthIff | libk/stdio/printf.c:175-178 | %*d is right if and only if the width is below 256 and, when negative, not beyond the number's own length |
| StandardPrintf.PrecisionIgnored | libk/stdio/printf.c:180-194 | %.3d of 5 should be 005 and is not |
| StandardPrintf.NegativeWidthIgnored | libk/stdio/printf.c:175-178 | %*d of -5 and 7 should be 7 and four blanks and is not |
| StandardPrintf.DoubleHPrintsLetter | libk/stdio/printf.c:196-207 | every specification with hh, with any flags, width and precision and anything behind it, takes no converted argument and prints its conversion letter as text |
| StandardPrintf.PointerPrinted | libk/stdio/printf.c:219-223 | %p prints upper-case hexadecimal digits without a prefix, with or without # |
| StandardPrintf.FixedConversionIff | libk/stdio/printf.c:414-460 | %f and %.nf print the number in decimal notation rounded to the precision if and only if the code can handle it and the rounded decimals have as many digits as asked for, over the real numbers |
| StandardPrintf.ScientificConversionIff | libk/stdio/printf.c:414-481 | %e and %.ne print the scientific notation of the number if and only if the code can handle it, the mantissa comes out right and has one digit before the point that is not zero |
| StandardPrintf.FloatFlags | libk/stdio/printf.c:430-441 | flags and width of a floating conversion pad the part before the point |
| StandardPrintf.CountSpelled | libk/stdio/printf.c:377-412 | %n with each length modifier is one store of that type, and none for L |
| FloatFacts.FixedIff | libk/stdio/printf.c:438-457 | for every real number and precision: the two printed integers are the decimal notation if and only if rounding neither shortens the decimals nor carries |
| FloatFacts.ScientificIff | libk/stdio/printf.c:425-481 | the same on the text, for every real number and precision |
| FloatFacts.NormalisedIs | libk/stdio/printf.c:425-428 | mantissa times a power of ten is the number, and the mantissa is between 1 and 10 for numbers from 10 on |
| FloatFacts.FloatField | libk/stdio/printf.c:430-441 | the field of a fixed number is as wide as asked for or needed, that of a scientific one is short by its exponent |
| FloatFacts.LostZero | libk/stdio/printf.c:443-454 | 1.05 with two decimals comes out as 1.5 |
| FloatFacts.LostCarry | libk/stdio/printf.c:443-454 | 0.99 with one decimal comes out as 0.1 |
| Vprintf.Vprintf | libk/stdio/printf.c:109-489 | the console receives exactly the rendering of the format, the count is its length, and %n stores what it should |
| Vprintf.PrintConv | libk/stdio/printf.c:209-481 | one conversion, floating numbers and %n included: output, arguments left, and stores |
| Vprintf.PrintFloat | libk/stdio/printf.c:414-481 | normalisation, integer part, point, decimals cut to size and exponent, as specified |
| Vprintf.ScanDirective | libk/stdio/printf.c:129-207 | flags, width, precision and length are read as specified |
| Vprintf.DisplayString | libk/stdio/printf.c:98-107 | every character is printed and counted |
| CStrings.Strspn | libk/string/strspn.c:3-21 | the length of the longest prefix inside the set |
| CStrings.Strpbrk | libk/string/strpbrk.c:3-15 | the first character inside the set, or none |
| CStrings.Strchr | libk/string/strchr.c:4-12 | the first occurrence, the terminator for 0, or none |
| CStrings.Strcmp | libk/string/strcmp.c:3-9 | zero if and only if the strings are equal, otherwise the first difference |
| CStrings.Strcpy | libk/string/strcpy.c:3-18 | the string and its terminator are written, all else is kept |
| CStrings.Memset | libk/string/memset.c:3-8 | the range is filled, all else is kept |
| CStrings.Memmove | libk/string/memmove.c:3-14 | for every overlap the destination is the old source and all else is kept |
| Tokens.Tokeniser.Strtok | libk/string/strtok.c:3-32 | token, buffer and position after one call |
| Tokens.StrtokDelivers | libk/string/strtok.c:4-32 | one call delivers the first token as a string and leaves exactly the others; NULL if and only if none is left |
| Tokens.RepeatedStrtok | libk/string/strtok.c:4-32 | repeated calls deliver exactly all maximal delimiter-free runs in order, by pointers to where they start, each an intact string at the end; only delimiters are overwritten, and every later call returns NULL |
| Tokens.RunsAreExactlyTheMaximalRuns | libk/string/strtok.c:11-30 | the tokens are all maximal delimiter-free runs, nothing else, in order |
| Tokens.SplitIsRuns | libk/string/strtok.c:11-30 | the token texts are the slices of those runs |
| Tokens.SplitRest | libk/string/strtok.c:22-30 | what is left after a call contains exactly the remaining tokens |
| Console.ConsoleRefinesPage | kernel/arch/i386/vga.c:24-93 | after any run of operations the buffer shows the last 25 rows of a page on which a scroll only appends a blank row |
| Console.HistoryKept | kernel/arch/i386/vga.c:24-81 | rows that scrolled off are never touched and no row is lost |
| Console.DisplayStep | kernel/arch/i386/vga.c:42-93 | the refinement for each single operation |
| Console.PutTextOnRow | kernel/arch/i386/vga.c:42-68 | text that fits the row changes exactly its cells and the column |
| Console.TextLayout | kernel/arch/i386/vga.c:42-60 | text of any length printed from the left edge: character k is in column k mod 80, k / 80 rows down, with attribute 7, and the row is left only when the next character comes |
| Console.LineBreak | kernel/arch/i386/vga.c:42-60 | newline and carriage return go to the left edge of the next row, NUL does nothing |
| Console.CursorPlaced | kernel/arch/i386/vga.c:70-81 | which columns and rows are accepted, and when placing the cursor scrolls |
| Console.Vga.Scroll | kernel/arch/i386/vga.c:24-40 | rows 1 to 24 move up one and only the last is zeroed |
| Console.Vga.Putc | kernel/arch/i386/vga.c:42-60 | the screen steps as specified and tx <= 80, ty < 25 is kept, with every cell write inside the buffer |
| Console.Vga.Puts | kernel/arch/i386/vga.c:62-68 | every character up to the terminator |
| Console.Vga.SetPos | kernel/arch/i386/vga.c:70-76 | cursor placement, scrolling when below the last row |
| Console.Vga.SetPosX | kernel/arch/i386/vga.c:78-81 | column placement |
| Console.Vga.ClrLine | kernel/arch/i386/vga.c:91-93 | the first 40 cells of the row are zeroed and no others |
| ShellSpec.HexExact | kernel/shell.c:40-57 | %08X of an address is eight digits, %02X of a byte two, and they denote the number |
| ShellSpec.HexCharacters | kernel/shell.c:40-57 | the hexadecimal output consists of 0 to 9 and A to F |
| ShellSpec.RenderPair | kernel/shell.c:40-57 | the two-number formats print exactly the two hexadecimal numbers |
| ShellSpec.RenderUnknown | kernel/shell.c:60-62 | the unknown-command format prints the word |
| ShellSpec.CommandsDo | kernel/shell.c:23-63 | what every command line does, with words and messages spelled out: usage, unknown command, one byte stored modulo 256 and no other changed |
| Session.RedrawIff | kernel/shell.c:73-101 | along every editing run that stays on the row, the row shows prompt and line after each key if and only if no backspace came on 40 or more characters |
| Session.BackspaceAgreesIff | kernel/shell.c:81-87 | one backspace keeps the row right if and only if the line has at most 39 characters |
| Session.FortyCharacters | kernel/shell.c:81-87 | one backspace on forty characters leaves a row that does not show the line |
| Session.TypeAgrees | kernel/shell.c:96-100 | typing keeps the row right |
| Session.EditingIsOk | kernel/shell.c:81-99 | the session's line is the abstract edited line and memory is untouched |
| Session.EnteredRows | kernel/shell.c:76-79 | output that fits a row is the row above the new prompt and the entered line the row above that, scrolled or not |
| Editor.ActIsStep | kernel/shell.c:73-101 | while the 256-byte buffer holds just a line, each key acts on buffer and pointer as on the abstract line |
| Editor.RunsAgree | kernel/shell.c:73-101 | the same for every run of typing, erasing and Enter |
| Editor.PointersWrap | kernel/shell.c:65-99 | line pointer and history pointer count modulo 256; backspace stops at 0 |
| Editor.CutLineReads | kernel/shell.c:29-65 | the buffer that is recorded reads up to the end of the first word, and is the typed buffer if the text ends there |
| Editor.RecallIff | kernel/shell.c:65-91 | Enter and then up bring back pointer and text up to the end of the first word; the text is whole if and only if it ends there |
| Editor.RecallShows | kernel/shell.c:88-100 | up brings back the entry before the current one and down the entry after it, and the row then starts with prompt and text |
| Editor.RecallRowIff | kernel/shell.c:88-100 | the row shows nothing else if and only if what stood there before was no longer |
| Editor.EditShows | kernel/shell.c:81-100 | after typing and after backspace the row starts with prompt and text, whatever the buffer holds |
| Editor.SubmitShows | kernel/shell.c:76-79 | after Enter a prompt stands at the left edge, whatever was printed |
| Editor.HistoryRecords | kernel/shell.c:65-69 | along any run without arrows, each Enter records its line behind the earlier ones, which are kept |
| Editor.RecallAfterRun | kernel/shell.c:65-100 | after any such run, the up arrow pressed and released k times, NUL of each release included, brings back the line of the kth last Enter, up to the end of its first word, and the row shows it when the recalled lines fit the row |
| Editor.HiddenTyping | kernel/shell.c:96-100 | with the pointer behind the terminator, whatever is typed leaves the shown and runnable text alone |
| Editor.RerunLosesArguments | kernel/shell.c:29-101 | a command run, recalled and run again, with anything typed in between, the second time runs its first word alone and leaves memory as it is |
| Shell.Shell.Kcallback | kernel/shell.c:73-102 | for every character and key state: the callback takes buffer, pointer, history, screen and memory through exactly the specified action |
| Shell.Shell.OnBackspace | kernel/shell.c:81-100 | the pointer steps back, a NUL is written there, half the row is cleared and prompt and text are redrawn |
| Shell.Shell.OnCharacter | kernel/shell.c:96-100 | the character is written at the pointer, which wraps at 256, and the text is redrawn behind the prompt |
| Shell.Shell.OnRecall | kernel/shell.c:88-95 | the entry and its pointer replace the line, and its text is drawn |
| Shell.Shell.Proc | kernel/shell.c:29-70 | the command's effect on memory and screen, the cleared line, and the exact buffer and pointer recorded |
| Shell.Shell.DoPoke | kernel/shell.c:42-59 | usage, or the store and its report, and the exact cuts made in the buffer |
| Shell.Shell.DoPeek | kernel/shell.c:32-41 | usage, or the address and byte, and the exact cuts made in the buffer |
| Shell.Hash | kernel/shell.c:23-27 | the command word decides |
| Shell.Shell.constructor | kernel/shell.c:12-21 | an empty line, an empty history and a prompt |
| Keyboard.StateReflectsHistory | kernel/arch/i386/kbd.c:24-139 | after every run, bits 0, 1 and 2 are the last event of either shift key, the parity of caps presses and the last backspace event, and the prefix is pending if and only if 0xE0 came since the last arrow code |
| Keyboard.LettersFollowHistory | kernel/arch/i386/kbd.c:120-137 | every emitted letter is upper case if and only if shift differs from caps in the history so far |
| Keyboard.CaseOfLetters | kernel/arch/i386/kbd.c:121-136 | what each key emits under shift and caps |
| Keyboard.ArrowFacts | kernel/arch/i386/kbd.c:58-117 | an arrow code changes its own bit, consumes the prefix and calls back, only behind 0xE0 |
| Keyboard.ArrowsReflectHistory | kernel/arch/i386/kbd.c:58-117 | after every run bits 4 to 7 are the last press or release of up, down, left and right that came behind 0xE0 |
| Keyboard.ShiftTable | kernel/arch/i386/kbd.c:9-22 | the shifted table holds the upper case of each letter and no other letter |
| Keyboard.KeysEmit | kernel/arch/i386/kbd.c:9-22 | for every key of the US layout, given as characters: pressing it emits the label, shifted when shift is held, for letters when shift differs from caps, and changes nothing else |
| Keyboard.ModifierCodes | kernel/arch/i386/kbd.c:28-57 | the codes of shift, caps and the 0xE0 prefix, and the one bit that each of them changes |
| Keyboard.BackspaceCodes | kernel/arch/i386/kbd.c:28-57 | backspace calls back with character 0 and its bit set when pressed, and is silent when released |
| Keyboard.ArrowCodes | kernel/arch/i386/kbd.c:58-117 | behind 0xE0 each arrow sets or clears its own bit and calls back, without it the code does nothing |
| Keyboard.SilentKeys | kernel/arch/i386/kbd.c:120-139 | the keys without a character and all other releases are silent |
| Keyboard.TypingDelivers | kernel/arch/i386/kbd.c:24-139 | pressing and releasing the keys of a text calls back with exactly the text |
| Keyboard.Device.Interrupt | kernel/arch/i386/kbd.c:24-142 | the handler refines the step and returns the call it makes |
| EndToEnd.PokeThenPeek | kernel/shell.c:29-102 | for every address of the commands' own memory of 2^32 bytes and every 32-bit value, the scancodes of the two commands change exactly that byte, to the low byte of the value, and the row above the new prompt shows the address in eight digits and the byte in two |
| EndToEnd.PokeStores | kernel/shell.c:42-59 | for every 32-bit value, entering poke stores its low byte, changes no other byte and prints both numbers |
| EndToEnd.PeekShows | kernel/shell.c:32-41 | entering peek changes nothing and prints the byte |
| EndToEnd.LinesAre | kernel/shell.c:23-63 | the two command lines, letter by letter |
| EndToEnd.EnteredLine | kernel/shell.c:73-101 | a typed line and Enter run as the command it spells |
| EndToEnd.OnScancode | kernel/arch/i386/kbd.c:24-142 | interrupt and callback together refine keyboard step and shell action, arrows included |
| EndToEnd.OnScancodes | kernel/arch/i386/kbd.c:24-142 | a run of scancodes, arrows included, takes the shell object through exactly the actions they amount to |
| EndToEnd.HeldKeysDecide | kernel/shell.c:74-99 | what each callback does follows from the history of scancodes: Enter, else backspace held, else up held, else down held, else insertion |
| EndToEnd.PokeThenPeekTyped | kernel/shell.c:29-102 | the end-to-end theorem on the keyboard and shell objects: exactly byte a of memory becomes the low byte of v, and the console shows report and prompt |
| EndToEnd.ArrowKeyDelivers | kernel/arch/i386/kbd.c:58-117 | pressing and releasing an arrow key asks for its action and then for a NUL to be inserted |
| EndToEnd.SidewaysHides | kernel/shell.c:96-100 | after the left or right arrow, whatever text is typed, Enter runs the line from before the arrow |
| EndToEnd.UpArrowReruns | kernel/shell.c:29-101 | from scancodes: Enter, up arrow, any text and Enter run a command twice, the second time without its arguments, so memory is as the first run left it and a usage or unknown-command message is shown |
| EndToEnd.UpArrowsRecall | kernel/arch/i386/kbd.c:58-73 | the same from scancodes: after any run of them without arrows, k up arrow keys bring back the kth last line and show it |

## Left out

- Writes that hit the file buffer: the buffer that holds the ELF file is a separate memory, so a relocation aimed at that buffer would not change headers read later.
- UEFI calls, `efi_main`, `find_uart`, `print_info`, `efi/acpi.c`: firmware plumbing; the firmware's answers are parameters of the loader, and pages are not given back by it on failure, as in the source.
- Loader.LoadElf: a dynamic table without DT_NULL makes the source scan for ever; the method asks for a terminated one.
- `int` overflow of `i * e_phentsize` in the loader: the product is taken modulo 2^64.
- Vprintf.Vprintf: formats whose directive is cut off by the end, whose arguments are missing, or whose number `divmod_u64`, a cast or the buffers cannot handle have no rendering; the objects that `%n` writes are a list of stores.
- Vprintf.PrintFloat: floating numbers are real numbers, so the rounding of `double` operations is not modelled.
- StandardPrintf.StandardIff: `%p` is implementation-defined; `%x` is compared in its bare form only, `%f` and `%e` without flags and width only, and `%g` not at all.
- `int` overflow of a printed width or of the character count: widths are limited to 255 by the 256-byte buffers, the count is unbounded here.
- EndToEnd.PokeThenPeek: aliasing of `poke` with kernel variables is not modelled; the 2^32 bytes that commands address are separate from the line buffer, the console memory and the history.
- Shell.Shell.Kcallback: the up arrow on the oldest entry and the down arrow on the last read outside `shellhist` in the source, and a character that leaves the buffer without a NUL makes `puts` run on; these are excluded.
- Shell.Shell.Proc: a line without any word gives `shell_hash` a NULL pointer in the source and is excluded.
- Keyboard.Device.Interrupt: scancodes outside the key tables index out of bounds in the source and are excluded.
- Cursor registers, port I/O, `getpos`, `clrline_y`, the PIC, the UART and the aarch64 and riscv64 consoles: hardware access with little logic.
- Interrupt timing: each callback is one atomic step.
- `strlen`, `memchr`, `memcmp`, `memcpy`, `strcat`, `strncat`, `strncpy`, `strrchr`: would only add easy members.
