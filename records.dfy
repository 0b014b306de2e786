/**
 * The per-command decoders of the load-command walk: the symbol table
 * (`symtab_command` with its `nlist_64` array and string table), 64-bit
 * segments (`segment_command_64` followed by `section_64` descriptors), and
 * the linker-data commands that only carry (offset, size) pairs.
 */
module Records {
  import opened Wrappers
  import opened Bytes
  import opened Text
  import opened Output
  import opened Scan

  const LC_SYMTAB: nat := 0x2
  const LC_SEGMENT_64: nat := 0x19
  const LC_CODE_SIGNATURE: nat := 0x1d
  const LC_FUNCTION_STARTS: nat := 0x26
  const LC_DYLD_INFO_ONLY: nat := 0x80000022

  const Recognized: set<nat> := {LC_SYMTAB, LC_SEGMENT_64, LC_DYLD_INFO_ONLY, LC_CODE_SIGNATURE, LC_FUNCTION_STARTS}

  // load_command: cmd, cmdsize
  const CmdField: nat := 0
  const CmdsizeField: nat := 4
  // symtab_command: cmd, cmdsize, symoff, nsyms, stroff, strsize
  const SymoffField: nat := 8
  const NsymsField: nat := 12
  const StroffField: nat := 16
  // nlist_64: n_strx (4), n_type (1), n_sect (1), n_desc (2), n_value (8)
  const NListSize: nat := 16
  const StrxField: nat := 0
  const DescField: nat := 6
  const ValueField: nat := 8
  // segment_command_64: 72 bytes, nsects at 64; its section_64 array follows it
  const SegmentSize: nat := 72
  const NsectsField: nat := 64
  // section_64: sectname[16], segname[16], addr (8), size (8), ...; 80 bytes
  const SectionSize: nat := 80
  const AddrField: nat := 32
  const SizeField: nat := 40
  // dyld_info_command: ten uint32 fields from rebase_off at 8 to export_size at 44
  const DyldInfoFields: nat := 8
  // linkedit_data_command: cmd, cmdsize, dataoff, datasize
  const DataoffField: nat := 8
  const DatasizeField: nat := 12

  const TextSectionName: string := "__text"

  /**
   * The `j`-th `nlist_64` entry of the symbol table at `symoff`: None when its
   * `n_strx` is 0, otherwise the symbol named by the string at `stroff + n_strx`
   * with `n_value` and `n_desc` as decimal text.
   */
  function DecodeEntry(image: seq<Byte>, symoff: nat, stroff: nat, j: nat): (r: Result<Option<Symbol>, Malformed>)
    ensures r.Failure? ==> Outside(r.error, |image|)
    ensures r.Success? ==>
      var at := symoff + NListSize * j;
      && at + 4 <= |image|
      && (r.value.None? <==> image[at..at + 4] == [0, 0, 0, 0])
      && (r.value.Some? ==>
            var s := r.value.value;
            && at + NListSize <= |image|
            && CStringAt(image, stroff + FieldAt(image, at + StrxField, 4), s.name)
            && s.value == NatToText(FieldAt(image, at + ValueField, 8), 10)
            && s.size == NatToText(FieldAt(image, at + DescField, 2), 10))
  {
    var at := symoff + NListSize * j;
    var strx :- ReadLE(image, at + StrxField, 4);
    ZeroWord(image[at..at + 4]);
    if strx == 0 then
      Success(None)
    else
      var name :- CString(image, stroff + strx);
      var value :- ReadLE(image, at + ValueField, 8);
      // n_desc lies before n_value, which was read successfully.
      var desc := FieldAt(image, at + DescField, 2);
      Success(Some(Symbol(name, NatToText(value, 10), NatToText(desc, 10))))
  }

  function EntryDecoder(image: seq<Byte>, symoff: nat, stroff: nat): nat -> Result<Option<Symbol>, Malformed> {
    (j: nat) => DecodeEntry(image, symoff, stroff, j)
  }

  /** `report` gives the `addr` and `size` of the `section_64` at `at`. */
  ghost predicate ReportsSection(image: seq<Byte>, at: nat, report: Report) {
    && at + SizeField + 8 <= |image|
    && report == TextSection(FieldAt(image, at + AddrField, 8), FieldAt(image, at + SizeField, 8))
  }

  /**
   * The `j`-th `section_64` of the array at `first`: a text-section report when
   * its `sectname` is "__text" under `strcmp`, otherwise None.
   */
  function DecodeSection(image: seq<Byte>, first: nat, j: nat): (r: Result<Option<Report>, Malformed>)
    ensures r.Failure? ==> Outside(r.error, |image|)
    ensures r.Success? ==>
      var at := first + SectionSize * j;
      && (r.value.Some? <==> CStringAt(image, at, TextSectionName))
      && (r.value.Some? ==> ReportsSection(image, at, r.value.value))
  {
    var at := first + SectionSize * j;
    var isText :- StrcmpEqual(image, at, TextSectionName, 0);
    if !isText then
      Success(None)
    else
      var addr :- ReadLE(image, at + AddrField, 8);
      var size :- ReadLE(image, at + SizeField, 8);
      Success(Some(TextSection(addr, size)))
  }

  function SectionDecoder(image: seq<Byte>, first: nat): nat -> Result<Option<Report>, Malformed> {
    (j: nat) => DecodeSection(image, first, j)
  }

  /** The `nlist_64` entry `i` has a name: its `n_strx` is not 0. */
  ghost predicate Named(image: seq<Byte>, symoff: nat, i: nat) {
    var at := symoff + NListSize * i;
    at + 4 <= |image| && image[at..at + 4] != [0, 0, 0, 0]
  }

  /**
   * A decoded symbol list holds exactly the entries among the first `nsyms`
   * whose `n_strx` is not 0, in entry order: the k-th symbol comes from the
   * k-th named entry, so there are at most `nsyms` symbols.
   */
  lemma SymbolsAreNamedEntries(image: seq<Byte>, symoff: nat, stroff: nat, nsyms: nat)
    requires Collect(EntryDecoder(image, symoff, stroff), 0, nsyms).Success?
    ensures var symbols := Collect(EntryDecoder(image, symoff, stroff), 0, nsyms).value;
      var idx := Selected(EntryDecoder(image, symoff, stroff), 0, nsyms);
      && |symbols| == |idx| <= nsyms
      && (forall k, l :: 0 <= k < l < |idx| ==> idx[k] < idx[l])
      && (forall i :: 0 <= i < nsyms ==> (i in idx <==> Named(image, symoff, i)))
      && forall k :: 0 <= k < |idx| ==> DecodeEntry(image, symoff, stroff, idx[k]) == Success(Some(symbols[k]))
  {
    hide DecodeEntry;
    var decode := EntryDecoder(image, symoff, stroff);
    var symbols := Collect(decode, 0, nsyms).value;
    CollectIsSelected(decode, 0, nsyms);
    SelectedIndices(decode, 0, nsyms);
    var idx := Selected(decode, 0, nsyms);
    forall i | 0 <= i < nsyms
      ensures i in idx <==> Named(image, symoff, i)
    {
      assert decode(i) == DecodeEntry(image, symoff, stroff, i);
    }
    forall k | 0 <= k < |idx|
      ensures DecodeEntry(image, symoff, stroff, idx[k]) == Success(Some(symbols[k]))
    {
      assert decode(idx[k]) == DecodeEntry(image, symoff, stroff, idx[k]);
    }
  }

  /** The `section_64` at `at` is named "__text". */
  ghost predicate IsTextSection(image: seq<Byte>, at: nat) {
    CStringAt(image, at, TextSectionName)
  }

  /** Each `section_64` examined by a successful scan is selected exactly when it is "__text". */
  lemma SelectedSectionsAreText(image: seq<Byte>, first: nat, nsects: nat)
    requires Collect(SectionDecoder(image, first), 0, nsects).Success?
    ensures forall i :: 0 <= i < nsects ==>
      (i in Selected(SectionDecoder(image, first), 0, nsects) <==> IsTextSection(image, first + SectionSize * i))
  {
    hide DecodeSection;
    var decode := SectionDecoder(image, first);
    CollectIsSelected(decode, 0, nsects);
    SelectedIndices(decode, 0, nsects);
    var idx := Selected(decode, 0, nsects);
    forall i | 0 <= i < nsects
      ensures i in idx <==> IsTextSection(image, first + SectionSize * i)
    {
      assert decode(i) == DecodeSection(image, first, i);
    }
  }

  lemma SelectedSectionsReported(image: seq<Byte>, first: nat, nsects: nat)
    requires Collect(SectionDecoder(image, first), 0, nsects).Success?
    ensures var reports := Collect(SectionDecoder(image, first), 0, nsects).value;
      var idx := Selected(SectionDecoder(image, first), 0, nsects);
      |reports| == |idx| && forall k :: 0 <= k < |idx| ==> ReportsSection(image, first + SectionSize * idx[k], reports[k])
  {
    var decode := SectionDecoder(image, first);
    var reports := Collect(decode, 0, nsects).value;
    hide DecodeSection;
    CollectIsSelected(decode, 0, nsects);
    var idx := Selected(decode, 0, nsects);
    forall k | 0 <= k < |idx|
      ensures ReportsSection(image, first + SectionSize * idx[k], reports[k])
    {
      assert decode(idx[k]) == DecodeSection(image, first, idx[k]);
    }
  }

  /**
   * The reports of a segment are exactly its sections among the first
   * `nsects` named "__text", in order, each with that section's `addr` and
   * `size`.
   */
  lemma TextSectionsAreNamedText(image: seq<Byte>, first: nat, nsects: nat)
    requires Collect(SectionDecoder(image, first), 0, nsects).Success?
    ensures var reports := Collect(SectionDecoder(image, first), 0, nsects).value;
      var idx := Selected(SectionDecoder(image, first), 0, nsects);
      && |reports| == |idx| <= nsects
      && (forall k, l :: 0 <= k < l < |idx| ==> idx[k] < idx[l])
      && (forall i :: 0 <= i < nsects ==> (i in idx <==> IsTextSection(image, first + SectionSize * i)))
      && forall k :: 0 <= k < |idx| ==> ReportsSection(image, first + SectionSize * idx[k], reports[k])
  {
    SelectedIndices(SectionDecoder(image, first), 0, nsects);
    SelectedSectionsAreText(image, first, nsects);
    SelectedSectionsReported(image, first, nsects);
  }

  /**
   * The symbol loop of an `LC_SYMTAB` command: visits entries 0..nsyms-1 in
   * order and appends a symbol for each entry with a non-zero `n_strx`.
   */
  method CollectSymbols(image: seq<Byte>, symoff: nat, stroff: nat, nsyms: nat) returns (r: Result<seq<Symbol>, Malformed>)
    ensures r == Collect(EntryDecoder(image, symoff, stroff), 0, nsyms)
  {
    hide DecodeEntry;
    ghost var decode := EntryDecoder(image, symoff, stroff);
    var symbols: seq<Symbol> := [];
    var j := 0;
    PrependNothing(Collect(decode, 0, nsyms));
    while j < nsyms
      invariant j <= nsyms
      invariant Collect(decode, 0, nsyms) == Prepend(symbols, Collect(decode, j, nsyms))
    {
      var entry := DecodeEntry(image, symoff, stroff, j);
      if entry.Failure? {
        return Failure(entry.error);
      }
      PrependStep(decode, symbols, j, nsyms);
      if entry.value.Some? {
        symbols := symbols + [entry.value.value];
      }
      j := j + 1;
    }
    assert symbols + [] == symbols;
    return Success(symbols);
  }

  /**
   * The section loop of an `LC_SEGMENT_64` command: examines the `nsects`
   * descriptors that follow the segment's fixed part, in order, and reports
   * each one named "__text".
   */
  method ScanSections(image: seq<Byte>, first: nat, nsects: nat) returns (r: Result<seq<Report>, Malformed>)
    ensures r == Collect(SectionDecoder(image, first), 0, nsects)
  {
    hide DecodeSection;
    ghost var decode := SectionDecoder(image, first);
    var reports: seq<Report> := [];
    var j := 0;
    PrependNothing(Collect(decode, 0, nsects));
    while j < nsects
      invariant j <= nsects
      invariant Collect(decode, 0, nsects) == Prepend(reports, Collect(decode, j, nsects))
    {
      var section := DecodeSection(image, first, j);
      if section.Failure? {
        return Failure(section.error);
      }
      PrependStep(decode, reports, j, nsects);
      if section.value.Some? {
        reports := reports + [section.value.value];
      }
      j := j + 1;
    }
    assert reports + [] == reports;
    return Success(reports);
  }

  /** `count` consecutive `uint32_t` fields from `at`, read in order. */
  function ReadWords(image: seq<Byte>, at: nat, count: nat): (r: Result<seq<nat>, Malformed>)
    ensures r.Failure? ==> Outside(r.error, |image|)
    ensures r.Success? ==>
      && |r.value| == count
      && (count > 0 ==> at + 4 * count <= |image|)
      && forall k :: 0 <= k < count ==> r.value[k] == FieldAt(image, at + 4 * k, 4)
    decreases count
  {
    if count == 0 then
      Success([])
    else
      var word :- ReadLE(image, at, 4);
      var rest :- ReadWords(image, at + 4, count - 1);
      Success([word] + rest)
  }

  function DecodeSymtab(image: seq<Byte>, at: nat): (r: Result<seq<Report>, Malformed>)
    ensures r.Failure? ==> Outside(r.error, |image|)
    ensures r.Success? ==> |r.value| == 1 && r.value[0].SymbolTable?
  {
    var symoff :- ReadLE(image, at + SymoffField, 4);
    var stroff :- ReadLE(image, at + StroffField, 4);
    // nsyms lies before stroff, which was read successfully.
    var nsyms := FieldAt(image, at + NsymsField, 4);
    var symbols :- Collect(EntryDecoder(image, symoff, stroff), 0, nsyms);
    Success([SymbolTable(symbols)])
  }

  /**
   * The symbols of a decoded `LC_SYMTAB` command are the scan of its own
   * table: `symoff` at +8, `nsyms` at +12 and `stroff` at +16. They are, in
   * entry order, exactly the entries among the first `nsyms` whose `n_strx`
   * is not 0.
   */
  lemma SymtabSymbols(image: seq<Byte>, at: nat)
    requires DecodeSymtab(image, at).Success?
    ensures at + StroffField + 4 <= |image|
    ensures var symoff, nsyms, stroff :=
        FieldAt(image, at + SymoffField, 4), FieldAt(image, at + NsymsField, 4), FieldAt(image, at + StroffField, 4);
      var symbols := DecodeSymtab(image, at).value[0].symbols;
      var idx := Selected(EntryDecoder(image, symoff, stroff), 0, nsyms);
      && Collect(EntryDecoder(image, symoff, stroff), 0, nsyms) == Success(symbols)
      && |symbols| == |idx| <= nsyms
      && (forall k, l :: 0 <= k < l < |idx| ==> idx[k] < idx[l])
      && (forall i :: 0 <= i < nsyms ==> (i in idx <==> Named(image, symoff, i)))
      && forall k :: 0 <= k < |idx| ==> DecodeEntry(image, symoff, stroff, idx[k]) == Success(Some(symbols[k]))
  {
    var symoff, nsyms, stroff :=
      FieldAt(image, at + SymoffField, 4), FieldAt(image, at + NsymsField, 4), FieldAt(image, at + StroffField, 4);
    assert Collect(EntryDecoder(image, symoff, stroff), 0, nsyms) == Success(DecodeSymtab(image, at).value[0].symbols);
    SymbolsAreNamedEntries(image, symoff, stroff, nsyms);
  }

  function DecodeSegment(image: seq<Byte>, at: nat): (r: Result<seq<Report>, Malformed>)
    ensures r.Failure? ==> Outside(r.error, |image|)
    ensures r.Success? ==>
      && at + NsectsField + 4 <= |image|
      && |r.value| <= FieldAt(image, at + NsectsField, 4)
      && forall k :: 0 <= k < |r.value| ==> r.value[k].TextSection?
  {
    var nsects :- ReadLE(image, at + NsectsField, 4);
    var decode := SectionDecoder(image, at + SegmentSize);
    var sections := Collect(decode, 0, nsects);
    if sections.Success? then
      CollectIsSelected(decode, 0, nsects);
      sections
    else
      sections
  }

  /**
   * The reports of a decoded `LC_SEGMENT_64` command are the scan of the
   * `nsects` descriptors (count at +64) that start right after the 72-byte
   * `segment_command_64`: exactly its sections named "__text", in order, each
   * with its own `addr` and `size`.
   */
  lemma SegmentSections(image: seq<Byte>, at: nat)
    requires DecodeSegment(image, at).Success?
    ensures at + NsectsField + 4 <= |image|
    ensures var first, nsects := at + SegmentSize, FieldAt(image, at + NsectsField, 4);
      var reports := DecodeSegment(image, at).value;
      var idx := Selected(SectionDecoder(image, first), 0, nsects);
      && Collect(SectionDecoder(image, first), 0, nsects) == Success(reports)
      && |reports| == |idx| <= nsects
      && (forall k, l :: 0 <= k < l < |idx| ==> idx[k] < idx[l])
      && (forall i :: 0 <= i < nsects ==> (i in idx <==> IsTextSection(image, first + SectionSize * i)))
      && forall k :: 0 <= k < |idx| ==> ReportsSection(image, first + SectionSize * idx[k], reports[k])
  {
    hide DecodeSection, Collect, Selected, IsTextSection, ReportsSection;
    var first, nsects := at + SegmentSize, FieldAt(image, at + NsectsField, 4);
    assert Collect(SectionDecoder(image, first), 0, nsects) == DecodeSegment(image, at);
    hide DecodeSegment;
    TextSectionsAreNamedText(image, first, nsects);
  }

  function DecodeDyldInfo(image: seq<Byte>, at: nat): (r: Result<seq<Report>, Malformed>)
    ensures r.Failure? ==> Outside(r.error, |image|)
    ensures r.Success? ==>
      && at + DyldInfoFields + 40 <= |image|
      && r.value == [DyldInfo(
           FieldAt(image, at + 8, 4), FieldAt(image, at + 12, 4), FieldAt(image, at + 16, 4),
           FieldAt(image, at + 20, 4), FieldAt(image, at + 24, 4), FieldAt(image, at + 28, 4),
           FieldAt(image, at + 32, 4), FieldAt(image, at + 36, 4), FieldAt(image, at + 40, 4),
           FieldAt(image, at + 44, 4))]
  {
    var w :- ReadWords(image, at + DyldInfoFields, 10);
    Success([DyldInfo(w[0], w[1], w[2], w[3], w[4], w[5], w[6], w[7], w[8], w[9])])
  }

  function DecodeLinkEdit(image: seq<Byte>, at: nat, tag: nat): (r: Result<seq<Report>, Malformed>)
    requires tag == LC_CODE_SIGNATURE || tag == LC_FUNCTION_STARTS
    ensures r.Failure? ==> Outside(r.error, |image|)
    ensures r.Success? ==>
      && at + DatasizeField + 4 <= |image|
      && |r.value| == 1
      && (r.value[0].CodeSignature? <==> tag == LC_CODE_SIGNATURE)
      && (r.value[0].FunctionStarts? <==> tag == LC_FUNCTION_STARTS)
      && r.value[0].dataOff == FieldAt(image, at + DataoffField, 4)
      && r.value[0].dataSize == FieldAt(image, at + DatasizeField, 4)
  {
    var dataoff :- ReadLE(image, at + DataoffField, 4);
    var datasize :- ReadLE(image, at + DatasizeField, 4);
    Success([if tag == LC_CODE_SIGNATURE then CodeSignature(dataoff, datasize) else FunctionStarts(dataoff, datasize)])
  }

  /**
   * The reports of the load command at `at` whose `cmd` is `tag`. Unrecognised
   * tags produce nothing; each recognised tag produces its own block.
   */
  function DecodeRecord(image: seq<Byte>, at: nat, tag: nat): (r: Result<seq<Report>, Malformed>)
    ensures r.Failure? ==> Outside(r.error, |image|)
    ensures tag !in Recognized ==> r == Success([])
    ensures r.Success? && tag == LC_SYMTAB ==> |r.value| == 1 && r.value[0].SymbolTable?
    ensures r.Success? && tag == LC_SEGMENT_64 ==>
      && at + NsectsField + 4 <= |image|
      && |r.value| <= FieldAt(image, at + NsectsField, 4)
      && forall k :: 0 <= k < |r.value| ==> r.value[k].TextSection?
    ensures r.Success? && tag == LC_DYLD_INFO_ONLY ==>
      && at + DyldInfoFields + 40 <= |image|
      && r.value == [DyldInfo(
           FieldAt(image, at + 8, 4), FieldAt(image, at + 12, 4), FieldAt(image, at + 16, 4),
           FieldAt(image, at + 20, 4), FieldAt(image, at + 24, 4), FieldAt(image, at + 28, 4),
           FieldAt(image, at + 32, 4), FieldAt(image, at + 36, 4), FieldAt(image, at + 40, 4),
           FieldAt(image, at + 44, 4))]
    ensures r.Success? && (tag == LC_CODE_SIGNATURE || tag == LC_FUNCTION_STARTS) ==>
      && at + DatasizeField + 4 <= |image|
      && |r.value| == 1
      && (r.value[0].CodeSignature? <==> tag == LC_CODE_SIGNATURE)
      && (r.value[0].FunctionStarts? <==> tag == LC_FUNCTION_STARTS)
      && r.value[0].dataOff == FieldAt(image, at + DataoffField, 4)
      && r.value[0].dataSize == FieldAt(image, at + DatasizeField, 4)
  {
    if tag == LC_SYMTAB then
      DecodeSymtab(image, at)
    else if tag == LC_SEGMENT_64 then
      DecodeSegment(image, at)
    else if tag == LC_DYLD_INFO_ONLY then
      DecodeDyldInfo(image, at)
    else if tag == LC_CODE_SIGNATURE || tag == LC_FUNCTION_STARTS then
      DecodeLinkEdit(image, at, tag)
    else
      Success([])
  }
}
