/**
 * `PrintLibInfo`: the walk over the load commands that follow the 32-byte
 * `mach_header_64`. It visits exactly `ncmds` records; each record's
 * `cmdsize` says where the next one starts, and each is dispatched on its
 * `cmd` tag to the decoders of module Records.
 */
module Walker {
  import opened Wrappers
  import opened Bytes
  import opened Output
  import opened Scan
  import opened Records
  import opened MachHeader

  /** One load command as the walk saw it, with the reports it produced. */
  datatype Visit = Visit(offset: nat, tag: nat, cmdsize: nat, reports: seq<Report>)

  /** One iteration of the command loop at `at`: read `cmd`, dispatch on it, then read `cmdsize`. */
  function VisitAt(image: seq<Byte>, at: nat): (r: Result<Visit, Malformed>)
    ensures r.Failure? ==> Outside(r.error, |image|)
    ensures r.Success? ==>
      && at + 8 <= |image|
      && r.value.offset == at
      && r.value.tag == FieldAt(image, at + CmdField, 4)
      && r.value.cmdsize == FieldAt(image, at + CmdsizeField, 4)
  {
    var tag :- ReadLE(image, at + CmdField, 4);
    var reports :- DecodeRecord(image, at, tag);
    var cmdsize :- ReadLE(image, at + CmdsizeField, 4);
    Success(Visit(at, tag, cmdsize, reports))
  }

  /** The reports of a visited record are what the decoder for its tag produces at its offset. */
  lemma VisitAtReports(image: seq<Byte>, at: nat)
    requires VisitAt(image, at).Success?
    ensures var v := VisitAt(image, at).value;
      DecodeRecord(image, at, v.tag) == Success(v.reports)
  {
  }

  function Visitor(image: seq<Byte>): nat -> Result<Visit, Malformed> {
    (at: nat) => VisitAt(image, at)
  }

  /**
   * The next `remaining` records, the first at `at`, each following the
   * previous by its `cmdsize`; `visit` decodes the record at an offset.
   */
  function WalkFrom(visit: nat -> Result<Visit, Malformed>, at: nat, remaining: nat): (r: Result<seq<Visit>, Malformed>)
    ensures r.Failure? ==> exists a :: visit(a) == Failure(r.error)
    ensures r.Success? ==> |r.value| == remaining
    decreases remaining
  {
    if remaining == 0 then
      Success([])
    else
      var v :- visit(at);
      var rest :- WalkFrom(visit, at + v.cmdsize, remaining - 1);
      Success([v] + rest)
  }

  /** The whole walk: `ncmds` records starting right after the header. */
  function Walk(image: seq<Byte>): (r: Result<seq<Visit>, Malformed>)
    ensures r.Failure? ==> Outside(r.error, |image|)
    ensures r.Success? ==> NcmdsField + 4 <= |image| && |r.value| == FieldAt(image, NcmdsField, 4)
  {
    var ncmds :- ReadLE(image, NcmdsField, 4);
    WalkFrom(Visitor(image), HeaderSize, ncmds)
  }

  function SumSizes(vs: seq<Visit>): nat {
    if vs == [] then 0 else vs[0].cmdsize + SumSizes(vs[1..])
  }

  lemma {:induction false} SumSizesAppend(vs: seq<Visit>, v: Visit)
    ensures SumSizes(vs + [v]) == SumSizes(vs) + v.cmdsize
  {
    if vs != [] {
      assert (vs + [v])[1..] == vs[1..] + [v];
      SumSizesAppend(vs[1..], v);
    }
  }

  /** A walk of at least one record is the first visit in front of the walk from the next record. */
  lemma WalkFromUnfold(visit: nat -> Result<Visit, Malformed>, at: nat, remaining: nat)
    requires remaining > 0
    ensures visit(at).Failure? ==> WalkFrom(visit, at, remaining) == Failure(visit(at).error)
    ensures visit(at).Success? ==>
      WalkFrom(visit, at, remaining) == Prepend([visit(at).value], WalkFrom(visit, at + visit(at).value.cmdsize, remaining - 1))
  {
  }

  lemma SumSizesCons(first: Visit, rest: seq<Visit>, k: nat)
    requires 0 < k <= |rest| + 1
    ensures SumSizes(([first] + rest)[..k]) == first.cmdsize + SumSizes(rest[..k - 1])
  {
    var vs := [first] + rest;
    assert vs[..k][0] == first;
    assert vs[..k][1..] == rest[..k - 1];
  }

  /** One step of a walk that is under way: `total` is the walk so far in front of the rest. */
  lemma WalkFromStep(visit: nat -> Result<Visit, Malformed>, total: Result<seq<Visit>, Malformed>,
                     done: seq<Visit>, at: nat, remaining: nat, r: Result<Visit, Malformed>)
    requires remaining > 0 && total == Prepend(done, WalkFrom(visit, at, remaining)) && visit(at) == r
    ensures r.Failure? ==> total == Failure(r.error)
    ensures r.Success? ==> total == Prepend(done + [r.value], WalkFrom(visit, at + r.value.cmdsize, remaining - 1))
  {
    WalkFromUnfold(visit, at, remaining);
    if r.Success? {
      PrependTwice(done, [r.value], WalkFrom(visit, at + r.value.cmdsize, remaining - 1));
    }
  }

  /** `WalkFromStep` for the walk over `image`: the step decodes the record at `at` with `VisitAt`. */
  lemma WalkStep(image: seq<Byte>, total: Result<seq<Visit>, Malformed>, done: seq<Visit>, at: nat, remaining: nat)
    requires remaining > 0 && total == Prepend(done, WalkFrom(Visitor(image), at, remaining))
    ensures var r := VisitAt(image, at);
      && (r.Failure? ==> total == Failure(r.error))
      && (r.Success? ==> total == Prepend(done + [r.value], WalkFrom(Visitor(image), at + r.value.cmdsize, remaining - 1)))
  {
    hide VisitAt;
    WalkFromStep(Visitor(image), total, done, at, remaining, VisitAt(image, at));
  }

  /** Record k of a successful walk is the one decoded at the start plus the sizes of the records before it. */
  lemma {:induction false} WalkFromOffset(visit: nat -> Result<Visit, Malformed>, at: nat, remaining: nat, k: nat)
    requires WalkFrom(visit, at, remaining).Success? && k < remaining
    ensures var vs := WalkFrom(visit, at, remaining).value;
      visit(at + SumSizes(vs[..k])) == Success(vs[k])
    decreases k
  {
    WalkFromUnfold(visit, at, remaining);
    var first := visit(at).value;
    var next := at + first.cmdsize;
    var rest := WalkFrom(visit, next, remaining - 1).value;
    var vs := WalkFrom(visit, at, remaining).value;
    assert vs == [first] + rest;
    if k == 0 {
      assert vs[..0] == [];
    } else {
      WalkFromOffset(visit, next, remaining - 1, k - 1);
      SumSizesCons(first, rest, k);
      assert vs[k] == rest[k - 1];
    }
  }

  /** A record whose `cmdsize` is 0 is followed by the same record. */
  lemma WalkFromZeroSize(visit: nat -> Result<Visit, Malformed>, at: nat, remaining: nat, k: nat)
    requires WalkFrom(visit, at, remaining).Success? && k + 1 < remaining
    requires WalkFrom(visit, at, remaining).value[k].cmdsize == 0
    ensures WalkFrom(visit, at, remaining).value[k + 1] == WalkFrom(visit, at, remaining).value[k]
  {
    var vs := WalkFrom(visit, at, remaining).value;
    WalkFromOffset(visit, at, remaining, k);
    WalkFromOffset(visit, at, remaining, k + 1);
    assert vs[..k + 1] == vs[..k] + [vs[k]];
    SumSizesAppend(vs[..k], vs[k]);
  }

  /** The walk is `ncmds` records from the end of the header, `ncmds` being read at offset 16. */
  lemma WalkStartsAfterHeader(image: seq<Byte>)
    requires Walk(image).Success?
    ensures NcmdsField + 4 <= |image|
    ensures Walk(image) == WalkFrom(Visitor(image), HeaderSize, FieldAt(image, NcmdsField, 4))
    ensures |Walk(image).value| == FieldAt(image, NcmdsField, 4)
  {
  }

  /**
   * Record k of a successful walk starts at 32 plus the `cmdsize` values of
   * records 0..k-1; its tag and `cmdsize` are read at that offset and its
   * reports are what the decoder for its tag produced there, none for an
   * unrecognised tag.
   */
  lemma WalkVisitsCommand(image: seq<Byte>, k: nat)
    requires Walk(image).Success? && k < |Walk(image).value|
    ensures var vs := Walk(image).value;
      var v := vs[k];
      && v.offset == HeaderSize + SumSizes(vs[..k])
      && v.offset + 8 <= |image|
      && v.tag == FieldAt(image, v.offset + CmdField, 4)
      && v.cmdsize == FieldAt(image, v.offset + CmdsizeField, 4)
      && DecodeRecord(image, v.offset, v.tag) == Success(v.reports)
      && (v.tag !in Recognized ==> v.reports == [])
  {
    hide VisitAt, DecodeRecord;
    WalkStartsAfterHeader(image);
    var vs := Walk(image).value;
    var at := HeaderSize + SumSizes(vs[..k]);
    WalkFromOffset(Visitor(image), HeaderSize, FieldAt(image, NcmdsField, 4), k);
    assert VisitAt(image, at) == Success(vs[k]);
    VisitAtReports(image, at);
  }

  /**
   * The source does not reject a `cmdsize` of 0: the cursor then stays put and
   * the same record is decoded again on the next iteration.
   */
  lemma ZeroSizeCommandRepeats(image: seq<Byte>, k: nat)
    requires Walk(image).Success?
    requires k + 1 < |Walk(image).value| && Walk(image).value[k].cmdsize == 0
    ensures Walk(image).value[k + 1] == Walk(image).value[k]
  {
    WalkStartsAfterHeader(image);
    WalkFromZeroSize(Visitor(image), HeaderSize, FieldAt(image, NcmdsField, 4), k);
  }

  /** The lines printed for the visited records, in order. */
  function VisitLines(vs: seq<Visit>): seq<string> {
    if vs == [] then [] else VisitLines(vs[..|vs| - 1]) + RenderReports(vs[|vs| - 1].reports)
  }

  /** Everything `PrintLibInfo` prints for `image`, or the first read that leaves it. */
  function LibInfo(image: seq<Byte>): Result<seq<string>, Malformed> {
    var vs :- Walk(image);
    Success(VisitLines(vs))
  }

  /** The `LC_SYMTAB` branch of the command loop: collects the symbols, then prints their table. */
  method PrintSymtab(image: seq<Byte>, at: nat) returns (r: Result<seq<Report>, Malformed>, lines: seq<string>)
    ensures r == DecodeSymtab(image, at)
    ensures r.Success? ==> lines == RenderReports(r.value)
  {
    hide Collect, DecodeEntry;
    lines := [];
    var symoff :- ReadLE(image, at + SymoffField, 4);
    var stroff :- ReadLE(image, at + StroffField, 4);
    var nsyms := FieldAt(image, at + NsymsField, 4);
    var symbols :- CollectSymbols(image, symoff, stroff, nsyms);
    r := Success([SymbolTable(symbols)]);
    lines := DisplaySymbols(symbols);
    assert RenderReports(r.value) == RenderReports([]) + ReportLines(r.value[0]);
  }

  /**
   * The `LC_SEGMENT_64` branch of the command loop: scans the sections, then
   * prints the text ones. The source prints each block inside the section
   * loop; rendering them after the scan gives the same lines, because a read
   * that leaves the image drops every line of the walk either way.
   */
  method PrintSegment(image: seq<Byte>, at: nat) returns (r: Result<seq<Report>, Malformed>, lines: seq<string>)
    ensures r == DecodeSegment(image, at)
    ensures r.Success? ==> lines == RenderReports(r.value)
  {
    hide Collect, DecodeSection, RenderReports;
    lines := [];
    var nsects :- ReadLE(image, at + NsectsField, 4);
    r := ScanSections(image, at + SegmentSize, nsects);
    if r.Success? {
      lines := RenderReports(r.value);
    }
  }

  /** The dispatch on the command tag, printing as it decodes. */
  method PrintRecord(image: seq<Byte>, at: nat, tag: nat) returns (r: Result<seq<Report>, Malformed>, lines: seq<string>)
    ensures r == DecodeRecord(image, at, tag)
    ensures r.Success? ==> lines == RenderReports(r.value)
  {
    hide DecodeSymtab, DecodeSegment, DecodeDyldInfo, DecodeLinkEdit, RenderReports;
    if tag == LC_SYMTAB {
      r, lines := PrintSymtab(image, at);
    } else if tag == LC_SEGMENT_64 {
      r, lines := PrintSegment(image, at);
    } else {
      r := DecodeRecord(image, at, tag);
      lines := if r.Success? then RenderReports(r.value) else [];
    }
  }

  /** The body of the command loop for the record at `at`, printing as it decodes. */
  method VisitRecord(image: seq<Byte>, at: nat) returns (r: Result<Visit, Malformed>, lines: seq<string>)
    ensures r == VisitAt(image, at)
    ensures r.Success? ==> lines == RenderReports(r.value.reports)
  {
    hide DecodeRecord, RenderReports;
    lines := [];
    var tag :- ReadLE(image, at + CmdField, 4);
    var reports: Result<seq<Report>, Malformed>;
    reports, lines := PrintRecord(image, at, tag);
    if reports.Failure? {
      return Failure(reports.error), lines;
    }
    var cmdsize :- ReadLE(image, at + CmdsizeField, 4);
    r := Success(Visit(at, tag, cmdsize, reports.value));
  }

  /**
   * `PrintLibInfo`: reads `ncmds`, then visits that many records, moving the
   * cursor by each record's `cmdsize`, and returns the printed lines.
   */
  method PrintLibInfo(image: seq<Byte>) returns (out: Result<seq<string>, Malformed>)
    ensures out == LibInfo(image)
  {
    hide VisitAt, DecodeRecord, RenderReports, Visitor;
    var ncmds :- ReadLE(image, NcmdsField, 4);
    ghost var total := WalkFrom(Visitor(image), HeaderSize, ncmds);
    assert Walk(image) == total;
    var cursor: nat := HeaderSize;
    var lines: seq<string> := [];
    ghost var visits: seq<Visit> := [];
    PrependNothing(total);
    var i := 0;
    ghost var remaining: nat := ncmds;
    while i < ncmds
      invariant i <= ncmds && remaining == ncmds - i
      invariant total == Prepend(visits, WalkFrom(Visitor(image), cursor, remaining))
      invariant lines == VisitLines(visits)
    {
      var r, recordLines := VisitRecord(image, cursor);
      WalkStep(image, total, visits, cursor, remaining);
      if r.Failure? {
        return Failure(r.error);
      }
      var v := r.value;
      assert (visits + [v])[..|visits|] == visits;
      visits := visits + [v];
      lines := lines + recordLines;
      cursor := cursor + v.cmdsize;
      remaining := remaining - 1;
      i := i + 1;
    }
    assert visits + [] == visits;
    return Success(lines);
  }
}
