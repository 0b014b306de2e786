/**
 * What the dumper prints, as values (`Symbol`, `Report`) and as the exact
 * lines written to standard output: the symbol table of `displaySymbols`
 * and the bannered blocks of the other load commands.
 */
module Output {
  import opened Wrappers
  import opened Text

  /** One decoded symbol-table entry; all three fields are already text. */
  datatype Symbol = Symbol(name: string, value: string, size: string)

  /** One block of output produced while walking the load commands. */
  datatype Report =
    | SymbolTable(symbols: seq<Symbol>)
    | TextSection(addr: nat, size: nat)
    | DyldInfo(rebaseOff: nat, rebaseSize: nat, bindOff: nat, bindSize: nat,
               weakBindOff: nat, weakBindSize: nat, lazyBindOff: nat, lazyBindSize: nat,
               exportOff: nat, exportSize: nat)
    | CodeSignature(dataOff: nat, dataSize: nat)
    | FunctionStarts(dataOff: nat, dataSize: nat)

  const NameWidth: nat := 60
  const ValueWidth: nat := 20
  const SizeWidth: nat := 12

  /** Three left-aligned columns of widths 60, 20 and 12. */
  function Columns(name: string, value: string, size: string, fill: char): string {
    PadRight(name, NameWidth, fill) + PadRight(value, ValueWidth, fill) + PadRight(size, SizeWidth, fill)
  }

  const HeaderRow: string := Columns("Name", "Value", "Size", ' ')
  const SeparatorRow: string := Columns("", "", "", '-')

  function Row(s: Symbol): string {
    Columns(s.name, s.value, s.size, ' ')
  }

  function Max(a: nat, b: nat): nat {
    if a < b then b else a
  }

  /**
   * Every field is printed whole: the name starts the row, the value starts
   * where the padded name ends and the size where the padded value ends.
   */
  lemma ColumnsLayout(name: string, value: string, size: string, fill: char)
    ensures var row := Columns(name, value, size, fill);
      var v := Max(|name|, NameWidth);
      var z := v + Max(|value|, ValueWidth);
      && |row| == z + Max(|size|, SizeWidth)
      && row[..|name|] == name
      && row[v..v + |value|] == value
      && row[z..z + |size|] == size
  {
    var a, b, c := PadRight(name, NameWidth, fill), PadRight(value, ValueWidth, fill), PadRight(size, SizeWidth, fill);
    var row := a + b + c;
    assert row[..|name|] == a[..|name|];
    assert row[|a|..|a| + |value|] == b[..|value|];
    assert row[|a| + |b|..|a| + |b| + |size|] == c[..|size|];
  }

  /** The header names the three columns at 0, 60 and 80; the separator is 92 dashes. */
  lemma HeaderAndSeparator()
    ensures |HeaderRow| == 92 && HeaderRow[..4] == "Name" && HeaderRow[60..65] == "Value" && HeaderRow[80..84] == "Size"
    ensures |SeparatorRow| == 92 && forall i :: 0 <= i < 92 ==> SeparatorRow[i] == '-'
  {
    ColumnsLayout("Name", "Value", "Size", ' ');
    var a, b, c := PadRight("", NameWidth, '-'), PadRight("", ValueWidth, '-'), PadRight("", SizeWidth, '-');
    assert SeparatorRow == a + b + c;
    forall i | 0 <= i < 92 ensures SeparatorRow[i] == '-' {
      if i < 60 {
        assert SeparatorRow[i] == a[i];
      } else if i < 80 {
        assert SeparatorRow[i] == b[i - 60];
      } else {
        assert SeparatorRow[i] == c[i - 80];
      }
    }
  }

  /** The lines `displaySymbols` prints for `symbols`. */
  function SymbolTableLines(symbols: seq<Symbol>): (lines: seq<string>)
    ensures |lines| == |symbols| + 2
  {
    [HeaderRow, SeparatorRow] + seq(|symbols|, k requires 0 <= k < |symbols| => Row(symbols[k]))
  }

  /**
   * `displaySymbols`: the header row, the separator row, then one row per
   * symbol in list order.
   */
  method DisplaySymbols(symbols: seq<Symbol>) returns (lines: seq<string>)
    ensures |lines| == |symbols| + 2
    ensures lines[0] == HeaderRow && lines[1] == SeparatorRow
    ensures forall k :: 0 <= k < |symbols| ==> lines[k + 2] == Row(symbols[k])
    ensures lines == SymbolTableLines(symbols)
  {
    lines := [HeaderRow, SeparatorRow];
    for k := 0 to |symbols|
      invariant |lines| == k + 2
      invariant lines[0] == HeaderRow && lines[1] == SeparatorRow
      invariant forall i :: 0 <= i < k ==> lines[i + 2] == Row(symbols[i])
    {
      lines := lines + [Row(symbols[k])];
    }
  }

  /** One labelled number of a bannered block, and the radix it is printed in. */
  datatype Field = Field(caption: string, base: Radix, value: nat)

  function FieldLine(f: Field): string {
    f.caption + NatToText(f.value, f.base)
  }

  /** The number printed after `caption` on `line`, if the line has that caption. */
  function ValueAfter(line: string, caption: string, base: Radix): Option<nat> {
    if |caption| <= |line| && line[..|caption|] == caption then ParseNat(line[|caption|..], base) else None
  }

  /** The lines of a bannered block that come before its numbers. */
  function Prologue(r: Report): seq<string>
    requires !r.SymbolTable?
  {
    match r
    case TextSection(_, _) =>
      ["----------------------Text Section----------------------", "Text section: "]
    case DyldInfo(_, _, _, _, _, _, _, _, _, _) =>
      ["----------------------Dyld Info----------------------"]
    case CodeSignature(_, _) =>
      ["----------------------Code Signature----------------------"]
    case FunctionStarts(_, _) =>
      ["----------------------Function Starts----------------------"]
  }

  /** The numbers of a bannered block, in the order they are printed. */
  function Fields(r: Report): seq<Field>
    requires !r.SymbolTable?
  {
    match r
    case TextSection(addr, size) =>
      [Field("Address: ", 16, addr), Field("Size: ", 10, size)]
    case DyldInfo(rebaseOff, rebaseSize, bindOff, bindSize, weakBindOff, weakBindSize,
                  lazyBindOff, lazyBindSize, exportOff, exportSize) =>
      [Field("Rebase offest: ", 10, rebaseOff), Field("Rebase size: ", 10, rebaseSize),
       Field("Bind offest: ", 10, bindOff), Field("Bind size: ", 10, bindSize),
       Field("Weak bind offest: ", 10, weakBindOff), Field("Weak bind size: ", 10, weakBindSize),
       Field("Lazy bind offest: ", 10, lazyBindOff), Field("Lazy bind size: ", 10, lazyBindSize),
       Field("Export offest: ", 10, exportOff), Field("Export size: ", 10, exportSize)]
    case CodeSignature(dataOff, dataSize) =>
      [Field("Code signature offest: ", 10, dataOff), Field("Code signature size: ", 10, dataSize)]
    case FunctionStarts(dataOff, dataSize) =>
      [Field("Function starts offest: ", 10, dataOff), Field("Function starts size: ", 10, dataSize)]
  }

  function Footer(r: Report): string
    requires !r.SymbolTable?
  {
    match r
    case TextSection(_, _) => "--------------------------------------------------------"
    case DyldInfo(_, _, _, _, _, _, _, _, _, _) => "-----------------------------------------------------"
    case CodeSignature(_, _) => "----------------------------------------------------------"
    case FunctionStarts(_, _) => "----------------------------------------------------------"
  }

  /** One line per field, in order. */
  function FieldLines(fs: seq<Field>): (lines: seq<string>)
    ensures |lines| == |fs|
    ensures forall k :: 0 <= k < |fs| ==> lines[k] == FieldLine(fs[k])
  {
    if fs == [] then [] else [FieldLine(fs[0])] + FieldLines(fs[1..])
  }

  /** The lines printed for one report. */
  function ReportLines(r: Report): seq<string> {
    match r
    case SymbolTable(symbols) => SymbolTableLines(symbols)
    case _ => Prologue(r) + FieldLines(Fields(r)) + [Footer(r)]
  }

  /** The number on a field's line reads back from what follows its caption. */
  lemma FieldLineRoundTrip(f: Field)
    ensures ValueAfter(FieldLine(f), f.caption, f.base) == Some(f.value)
  {
    var line := FieldLine(f);
    assert line[..|f.caption|] == f.caption;
    assert line[|f.caption|..] == NatToText(f.value, f.base);
    ParseNatToText(f.value, f.base);
  }

  /**
   * Every number of a bannered block can be read back, in order, from the line
   * that carries its caption: the address of a text section in hexadecimal,
   * everything else in decimal.
   */
  lemma ReportNumbersRoundTrip(r: Report)
    requires !r.SymbolTable?
    ensures var lines, fs, p := ReportLines(r), Fields(r), |Prologue(r)|;
      && |lines| == p + |fs| + 1
      && forall k :: 0 <= k < |fs| ==> ValueAfter(lines[p + k], fs[k].caption, fs[k].base) == Some(fs[k].value)
  {
    hide Fields, Prologue, Footer, FieldLine, ValueAfter;
    var lines, fs, p := ReportLines(r), Fields(r), |Prologue(r)|;
    assert lines == Prologue(r) + FieldLines(fs) + [Footer(r)];
    forall k | 0 <= k < |fs|
      ensures ValueAfter(lines[p + k], fs[k].caption, fs[k].base) == Some(fs[k].value)
    {
      assert lines[p + k] == FieldLines(fs)[k];
      FieldLineRoundTrip(fs[k]);
    }
  }

  /** The lines printed for a sequence of reports, in order. */
  function RenderReports(rs: seq<Report>): seq<string> {
    if rs == [] then [] else RenderReports(rs[..|rs| - 1]) + ReportLines(rs[|rs| - 1])
  }
}
