/**
 * `AutoDumpSymbols`: for each configured symbol name, find the image that
 * defines it and dump that image. Name resolution (`dlsym`, `dladdr` and
 * the null check on `dli_fbase`) is an abstract resolver that yields the
 * defining image or nothing.
 */
module Driver {
  import opened Wrappers
  import opened Bytes
  import opened MachHeader
  import opened Walker

  /** What the scan did for one configured name. */
  datatype ScanEvent =
    | Unresolved(name: string)
    | Rejected(name: string)
    | Dumped(name: string, output: Result<seq<string>, Malformed>)

  /** The scan stops at once without a library handle. */
  datatype ScanResult = NoHandle | Scanned(events: seq<ScanEvent>)

  /** Every image the resolver yields for these names holds at least the magic the header check reads. */
  predicate Readable(names: seq<string>, resolve: string -> Option<seq<Byte>>) {
    forall k :: 0 <= k < |names| && resolve(names[k]).Some? ==> |resolve(names[k]).value| >= 4
  }

  /** The events of the scan from the `j`-th name on. */
  function ScanFrom(names: seq<string>, resolve: string -> Option<seq<Byte>>, j: nat): seq<ScanEvent>
    requires j <= |names| && Readable(names, resolve)
    decreases |names| - j
  {
    if j == |names| then
      []
    else
      match resolve(names[j])
      case None => [Unresolved(names[j])] + ScanFrom(names, resolve, j + 1)
      case Some(image) =>
        if !ValidateHeaders(Some(image)) then [Rejected(names[j])]
        else [Dumped(names[j], LibInfo(image))] + ScanFrom(names, resolve, j + 1)
  }

  function AutoDump(loaded: bool, names: seq<string>, resolve: string -> Option<seq<Byte>>): ScanResult
    requires Readable(names, resolve)
  {
    if loaded then Scanned(ScanFrom(names, resolve, 0)) else NoHandle
  }

  /**
   * `e` is the event of the `i`-th name: it carries that name, it is
   * `Unresolved` exactly when the name does not resolve, `Rejected` exactly
   * when the image fails the header check, and a dump holds `LibInfo` of
   * the image.
   */
  ghost predicate EventFor(names: seq<string>, resolve: string -> Option<seq<Byte>>, i: nat, e: ScanEvent)
    requires i < |names| && Readable(names, resolve)
  {
    var base := resolve(names[i]);
    && e.name == names[i]
    && (e.Unresolved? <==> base.None?)
    && (e.Rejected? <==> base.Some? && !ValidateHeaders(base))
    && (e.Dumped? ==> base.Some? && e.output == LibInfo(base.value))
  }

  /**
   * The scan policy: names are handled in order, one event each; a name that
   * does not resolve is skipped, a resolved image is dumped when its magic is
   * valid, and the first image whose magic is invalid ends the whole scan.
   */
  lemma {:induction false} ScanPolicy(names: seq<string>, resolve: string -> Option<seq<Byte>>, j: nat)
    requires j <= |names| && Readable(names, resolve)
    ensures var ev := ScanFrom(names, resolve, j);
      && |ev| <= |names| - j
      && (forall k :: 0 <= k < |ev| ==> EventFor(names, resolve, j + k, ev[k]))
      && (forall k :: 0 <= k < |ev| - 1 ==> !ev[k].Rejected?)
      && (|ev| < |names| - j ==> |ev| > 0 && ev[|ev| - 1].Rejected?)
    decreases |names| - j
  {
    hide LibInfo, ScanFrom, ValidateHeaders;
    ScanStep(names, resolve, j);
    if j < |names| {
      var ev, rest := ScanFrom(names, resolve, j), ScanFrom(names, resolve, j + 1);
      if resolve(names[j]).Some? && !ValidateHeaders(resolve(names[j])) {
        assert ev == [Rejected(names[j])];
      } else {
        ScanPolicy(names, resolve, j + 1);
        assert ev[1..] == rest;
        forall k | 0 < k < |ev|
          ensures EventFor(names, resolve, j + k, ev[k])
        {
          assert ev[k] == rest[k - 1] && j + k == (j + 1) + (k - 1);
        }
      }
    }
  }

  /** One step of the scan, by how the `j`-th name resolves; no step is left after the last name. */
  lemma ScanStep(names: seq<string>, resolve: string -> Option<seq<Byte>>, j: nat)
    requires j <= |names| && Readable(names, resolve)
    ensures j == |names| ==> ScanFrom(names, resolve, j) == []
    ensures j < |names| && resolve(names[j]).None? ==>
      ScanFrom(names, resolve, j) == [Unresolved(names[j])] + ScanFrom(names, resolve, j + 1)
    ensures j < |names| && resolve(names[j]).Some? && !ValidateHeaders(resolve(names[j])) ==>
      ScanFrom(names, resolve, j) == [Rejected(names[j])]
    ensures j < |names| && resolve(names[j]).Some? && ValidateHeaders(resolve(names[j])) ==>
      ScanFrom(names, resolve, j) == [Dumped(names[j], LibInfo(resolve(names[j]).value))] + ScanFrom(names, resolve, j + 1)
  {
  }

  /** `AutoDumpSymbols`: the loop over the configured names. */
  method AutoDumpSymbols(loaded: bool, names: seq<string>, resolve: string -> Option<seq<Byte>>) returns (result: ScanResult)
    requires Readable(names, resolve)
    ensures result == AutoDump(loaded, names, resolve)
  {
    hide LibInfo, ScanFrom;
    if !loaded {
      return NoHandle;
    }
    var events: seq<ScanEvent> := [];
    var j := 0;
    assert ScanFrom(names, resolve, 0) == events + ScanFrom(names, resolve, 0);
    while j < |names|
      invariant j <= |names|
      invariant ScanFrom(names, resolve, 0) == events + ScanFrom(names, resolve, j)
    {
      ScanStep(names, resolve, j);
      var base := resolve(names[j]);
      var event: ScanEvent;
      if base.None? {
        event := Unresolved(names[j]);
      } else {
        if !ValidateHeaders(base) {
          return Scanned(events + [Rejected(names[j])]);
        }
        var output := PrintLibInfo(base.value);
        event := Dumped(names[j], output);
      }
      ghost var rest := ScanFrom(names, resolve, j + 1);
      assert ScanFrom(names, resolve, j) == [event] + rest;
      assert events + ([event] + rest) == (events + [event]) + rest;
      events := events + [event];
      j := j + 1;
    }
    ScanStep(names, resolve, j);
    assert events + [] == events;
    return Scanned(events);
  }
}
