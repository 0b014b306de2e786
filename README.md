# LibDumper Mach-O parser, modelled in Dafny

LibDumper loads a dynamic library, finds the base address of the image that
defines each of a fixed list of symbols, checks that the image starts with a
64-bit Mach-O magic, and prints what it finds in the image's load commands:
the symbol table (as a three-column table), the `__text` sections of 64-bit
segments, the dyld rebase/bind/export ranges, and the code-signature and
function-starts ranges.

This project models that parser over an image given as a sequence of bytes:

- `Bytes`: bounds-checked little-endian field reads and NUL-terminated
  strings, standing for the raw pointer dereferences. A read that would leave
  the image is reported as `Malformed(offset, width)` instead of reading
  arbitrary memory.
- `Text`: `std::to_string` and `std::hex` output as digit strings, with
  parsing back, and `std::setw` with `std::left` as right padding.
- `MachHeader`: the header check `ValidateHeaders`.
- `Output`: the `Symbol` record, the printed blocks as `Report` values, the
  exact lines printed for them, and `displaySymbols`.
- `Scan`: the loop shape shared by the symbol and section loops, which
  examines `n` fixed-size entries in order and keeps the selected ones.
- `Records`: the decoders for `LC_SYMTAB`, `LC_SEGMENT_64`,
  `LC_DYLD_INFO_ONLY`, `LC_CODE_SIGNATURE` and `LC_FUNCTION_STARTS`.
- `Walker`: the command walk of `PrintLibInfo`, both as a specification
  function (`LibInfo`) and as the loop that the code runs (`PrintLibInfo`).
- `Driver`: the policy of `AutoDumpSymbols`, with an abstract resolver in
  place of the dynamic loader.

The model follows the code where the Mach-O format's own rules ask for more:
- the format requires every `cmdsize` to be at least `sizeof(load_command)`
  (8); the code accepts any value, even 0, so the walk may revisit the same
  command (`Walker.ZeroSizeCommandRepeats`);
- in the format, the swapped magic `MH_CIGAM_64` means every field is stored
  byte-swapped; the code accepts that magic and then reads the fields
  without swapping them.

## Model

| member | source | states |
|---|---|---|
| `Bytes.ReadLE` | include/LibDumper.h:151-229 | A field read succeeds exactly when its bytes lie inside the image. The value is the little-endian number those bytes encode, below 256^width. A failure names the offending read, and that read leaves the image. |
| `Bytes.DecodeEncode` | include/LibDumper.h:135-137 | Decoding the little-endian encoding of any value that fits the width gives the value back. |
| `Bytes.EncodeDecode` | include/LibDumper.h:135-137 | Encoding the value of any byte string at its own width gives the bytes back, so a field value determines its bytes. |
| `Bytes.CString` | include/LibDumper.h:166 | Building a string from a `const char*` yields the bytes before the first NUL, none of them NUL, with the NUL present. It fails only when no NUL occurs before the end of the image. |
| `Bytes.StrcmpEqual` | include/LibDumper.h:183 | The byte-by-byte `strcmp` that stops at the first difference reports equality exactly when the C string at the offset is the literal. A failure is a read past the end of the image. |
| `Text.NatToText` | include/LibDumper.h:167-168 | `std::to_string` and `std::hex` print canonical digits: no sign, lowercase hex digits, and a leading zero only for 0. |
| `Text.ParseNatToText` | include/LibDumper.h:167-168 | The printed digits of any number parse back to that number, in decimal and in hexadecimal. |
| `Text.NatToTextOfTextToNat` | include/LibDumper.h:167-168 | Every canonical digit string is the printed form of the number it denotes, so printing is a bijection onto canonical text. |
| `Text.PadRight` | include/LibDumper.h:90-108 | `setw` with `left`: the text is kept whole at the front and followed by fill characters up to the width. Text longer than the width is not cut. |
| `MachHeader.MagicBytes` | include/LibDumper.h:137 | The 32-bit magic equals `MH_MAGIC_64` exactly when its bytes are cf fa ed fe, and `MH_CIGAM_64` exactly when they are fe ed fa cf. |
| `MachHeader.ValidateHeaders` | include/LibDumper.h:127-143 | A null base is rejected. Otherwise the image is accepted exactly when its first four bytes are the native or the byte-swapped 64-bit magic. |
| `Output.ColumnsLayout` | include/LibDumper.h:104-108 | A symbol row holds the name at column 0, the value where the padded name ends, and the size where the padded value ends. Each field is whole, and the row length is the sum of the padded widths. |
| `Output.HeaderAndSeparator` | include/LibDumper.h:90-100 | The header row is 92 characters with "Name", "Value" and "Size" at columns 0, 60 and 80. The separator row is 92 dashes. |
| `Output.SymbolTableLines` | include/LibDumper.h:84-110 | The table has two lines more than there are symbols. |
| `Output.DisplaySymbols` | include/LibDumper.h:84-110 | The loop prints the header row, then the separator row, then for each symbol in list order its row. |
| `Output.FieldLineRoundTrip` | include/LibDumper.h:185-226 | The number on a caption line parses back, in the radix it was printed in, from the text after the caption. |
| `Output.ReportNumbersRoundTrip` | include/LibDumper.h:185-226 | In every bannered block, each number line starts with its caption, and the rest parses back to that field's value: hexadecimal for the text-section address, decimal otherwise. |
| `Scan.Collect` | include/LibDumper.h:161-171 | A scan of entries j..n-1 keeps at most n-j of them. A failed scan reports the failure of one of the entries it examined. |
| `Scan.SelectedIndices` | include/LibDumper.h:161-171 | The selected indices lie in j..n-1, increase strictly, and are exactly the entries the decoder selects. |
| `Scan.CollectIsSelected` | include/LibDumper.h:161-171 | A successful scan decoded every entry. Its k-th item is the value of the k-th selected entry, so it holds exactly the selected entries, in entry order. |
| `Records.DecodeEntry` | include/LibDumper.h:163-170 | An `nlist_64` entry yields no symbol exactly when its `n_strx` is 0. Otherwise the symbol's name is the C string at `stroff + n_strx`. Its value is the `std::to_string` text of `n_value` and its size that of `n_desc`, canonical decimal digits that parse back to those numbers by `Text.ParseNatToText`. Failures are reads outside the image. |
| `Records.CollectSymbols` | include/LibDumper.h:159-171 | The symbol loop over `nsyms` entries returns exactly the scan of the entry decoder, including its first failure. |
| `Records.SymbolsAreNamedEntries` | include/LibDumper.h:159-171 | The symbols of a symbol table are, in entry order, exactly the entries among the first `nsyms` whose `n_strx` is non-zero, one symbol per such entry, so there are at most `nsyms` symbols. |
| `Records.DecodeSection` | include/LibDumper.h:183-190 | A `section_64` yields a report exactly when its `sectname` compares equal to "__text". The report carries that section's `addr` and `size`. |
| `Records.ScanSections` | include/LibDumper.h:180-191 | The section loop over `nsects` descriptors from `first` returns exactly the scan of the section decoder, including its first failure. `Records.SegmentSections` places `first` right after the 72-byte segment header. |
| `Records.SelectedSectionsAreText` | include/LibDumper.h:181-191 | A section among the first `nsects` is reported exactly when it is named "__text". |
| `Records.SelectedSectionsReported` | include/LibDumper.h:185-188 | The k-th report gives the `addr` and `size` of the k-th reported section. |
| `Records.TextSectionsAreNamedText` | include/LibDumper.h:176-192 | A segment's reports are, in order, exactly its sections named "__text", each with its own `addr` and `size`, and at most `nsects` of them. |
| `Records.ReadWords` | include/LibDumper.h:196-207 | Reads `count` consecutive 32-bit fields in order. The k-th value is the field at `at + 4k`. |
| `Records.DecodeSymtab` | include/LibDumper.h:153-174 | An `LC_SYMTAB` command prints one symbol table. Failures are reads outside the image. |
| `Records.DecodeSegment` | include/LibDumper.h:176-192 | An `LC_SEGMENT_64` command prints only text-section blocks, at most `nsects` of them. |
| `Records.SymtabSymbols` | include/LibDumper.h:153-174 | The symbols of an `LC_SYMTAB` command are the scan of its own table, with `symoff`, `nsyms` and `stroff` read at +8, +12 and +16. They are, in entry order, exactly the entries among the first `nsyms` whose `n_strx` is non-zero. |
| `Records.SegmentSections` | include/LibDumper.h:176-192 | The reports of an `LC_SEGMENT_64` command are the scan of the `nsects` descriptors (count at +64) that start 72 bytes after the command. They are exactly its sections named "__text", in order, each with its own `addr` and `size`. |
| `Records.DecodeDyldInfo` | include/LibDumper.h:194-209 | An `LC_DYLD_INFO_ONLY` command prints one block with the ten 32-bit fields from offset 8 to 44, in declaration order. |
| `Records.DecodeLinkEdit` | include/LibDumper.h:211-227 | A code-signature or function-starts command prints one block of its own kind, with `dataoff` and `datasize`. |
| `Records.DecodeRecord` | include/LibDumper.h:153-227 | Dispatches on the command tag. An unrecognised tag prints nothing and never fails. Each recognised tag prints the block its decoder states. |
| `Walker.VisitAt` | include/LibDumper.h:153-229 | One loop iteration reads `cmd` and `cmdsize` at the cursor, both inside the image. A failure is a read outside the image. |
| `Walker.VisitAtReports` | include/LibDumper.h:153-227 | The reports of a visited command are what the decoder for its tag produces at its offset. |
| `Walker.WalkFrom` | include/LibDumper.h:151-230 | A walk of `remaining` commands that succeeds visits exactly that many. Failures are reads outside the image. |
| `Walker.Walk` | include/LibDumper.h:148-151 | A successful walk visits exactly `ncmds` commands, `ncmds` being the field at offset 16. Any failure is a read outside the image. |
| `Walker.WalkFromOffset` | include/LibDumper.h:229 | Command k of a successful walk is the one decoded at the start offset plus the `cmdsize` values of the commands before it. |
| `Walker.WalkStartsAfterHeader` | include/LibDumper.h:148-151 | A successful walk reads `ncmds` at offset 16, starts at offset 32 and visits exactly `ncmds` commands. |
| `Walker.WalkVisitsCommand` | include/LibDumper.h:148-230 | Command k of a successful walk starts at 32 plus the sizes of commands 0..k-1, and its tag and size are read there. Its reports are its decoder's, and an unrecognised tag gives none. |
| `Walker.ZeroSizeCommandRepeats` | include/LibDumper.h:229 | A command whose `cmdsize` is 0 is visited again, with the same tag, size and reports, by the next iteration. |
| `Walker.PrintSymtab` | include/LibDumper.h:153-174 | The `LC_SYMTAB` branch of the loop, printing as it decodes, gives exactly `DecodeSymtab`. Its lines are the symbol table of the collected symbols. |
| `Walker.PrintSegment` | include/LibDumper.h:176-192 | The `LC_SEGMENT_64` branch of the loop gives exactly `DecodeSegment`. Its lines are the blocks of the text sections it found. |
| `Walker.PrintRecord` | include/LibDumper.h:153-227 | The dispatch on the tag, printing as it decodes, gives exactly `DecodeRecord`. Its lines are the rendering of those reports. |
| `Walker.VisitRecord` | include/LibDumper.h:153-229 | The loop body, printing as it decodes, agrees with `VisitAt`. Its lines are the rendering of that command's reports. |
| `Walker.PrintLibInfo` | include/LibDumper.h:146-231 | The cursor loop prints exactly `LibInfo`: the lines of every command's reports in walk order, or the first out-of-image read. |
| `Driver.ScanPolicy` | include/LibDumper.h:266-308 | Names are handled in order, one event each. A name is skipped exactly when it does not resolve. It is rejected exactly when its image fails the header check. A dumped image's output is `LibInfo` of it. Only the last event can be a rejection, and a scan that stops early ends with one. |
| `Driver.ScanStep` | include/LibDumper.h:275-306 | An unresolved name is skipped and the scan goes on. A rejected image ends the scan. A dumped image is followed by the scan of the remaining names. Nothing follows the last name. |
| `Driver.AutoDumpSymbols` | include/LibDumper.h:266-308 | The loop over the names produces exactly the scan `AutoDump` specifies. Without a handle it stops at once. |

## Left out

- `LoadLibraryFromPath`, `GetBaseAddress`, the destructor and `getHandle` are left out. They wrap `dlopen`, `dlsym`, `dladdr` and `dlclose`, which are foreign calls. `Driver` replaces them with a `loaded` flag and a resolver from name to optional image.
- The fixed symbol map of the class is left out. Its `SymbolInfo` types are never used by the parser. `Driver` takes the names as a sequence in the order given, where the source iterates the map in key order.
- `src/Dumper.cpp`, the command-line driver, is not part of this model.
- Diagnostics written to standard error are not modelled, nor is the "Library base address" line, which prints a pointer value.
- Walker.PrintLibInfo: the source dereferences raw pointers with no bounds checks. The model reports the first read that would leave the image and drops the lines printed before it. The source prints those lines and then has undefined behaviour.
- MachHeader.ValidateHeaders: requires a non-null image to hold its four magic bytes, because the source reads the magic without checking the length. `Driver` carries the same requirement for resolved images.
- Walker.Walk: does not reject a `cmdsize` below 8 and does not byte-swap images with the swapped magic, as in the code. `Walker.ZeroSizeCommandRepeats` states the consequence.
- Walker.WalkFrom: the cursor is an unbounded natural offset, with no wrap-around of address arithmetic. An offset past the end is reported as an out-of-image read.
- Records.DecodeSymtab: its own contract states only the shape of its report. The contents, and the fields they are read from, are stated by `Records.SymtabSymbols`.
- Records.DecodeSegment: its own contract states only the shape of its reports. The contents, and where the descriptors start, are stated by `Records.SegmentSections`.
- Stream state (`std::left`, `setfill`, `hex`/`dec`) is modelled only as its effect on each printed line.
