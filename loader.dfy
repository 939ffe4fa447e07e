/** The file loader: choose a reader from the file name's suffix and, for
    CSV files, find the delimiter by probing a few rows with each candidate
    in turn.

    The table library is one oracle, `read`, that answers a reader call with
    the table it builds, or `None` when the reader raises. Encoding
    detection is an opaque value `enc` of type `E` passed through unchanged. */
module Loader {
  import opened Frames

  /** Which reader a file name selects. */
  datatype Format = Spreadsheet | Csv | TabText

  datatype LoadError =
    | Unsupported   // the name's suffix is none of the recognised ones
    | LoadFailure   // the chosen reader raised

  /** The separator argument of a CSV read: a given delimiter, or none
      passed, so that the reader uses its default. */
  datatype Separator = Given(delim: char) | Default

  /** A call into the table library: the spreadsheet reader, or the CSV
      reader with a separator, an optional encoding and an optional row cap. */
  datatype ReadCall<E> =
    | ReadExcel
    | ReadCsv(sep: Separator, encoding: Option<E>, nrows: Option<nat>)

  /** Delimiters tried, in this order, on a CSV file. */
  const Candidates: seq<char> := [',', ';', '\t']

  /** Rows parsed by a delimiter probe. */
  const ProbeRows: nat := 5

  // ---------------------------------------------------------------------
  // Suffix dispatch

  function LowerChar(c: char): char
  {
    if 'A' <= c <= 'Z' then (c as int + 32) as char else c
  }

  function UpperChar(c: char): char
  {
    if 'a' <= c <= 'z' then (c as int - 32) as char else c
  }

  /** Lower-casing of a file name (ASCII letters only). */
  function Lower(s: string): (r: string)
    ensures |r| == |s|
    ensures forall i :: 0 <= i < |s| ==> r[i] == LowerChar(s[i])
  {
    if s == [] then [] else [LowerChar(s[0])] + Lower(s[1..])
  }

  function Upper(s: string): (r: string)
    ensures |r| == |s|
    ensures forall i :: 0 <= i < |s| ==> r[i] == UpperChar(s[i])
  {
    if s == [] then [] else [UpperChar(s[0])] + Upper(s[1..])
  }

  predicate EndsWith(s: string, suffix: string)
  {
    |suffix| <= |s| && s[|s| - |suffix|..] == suffix
  }

  /** The reader a file name selects, or `None` when its suffix is not
      recognised. */
  function Dispatch(name: string): Option<Format>
  {
    var lowered := Lower(name);
    if EndsWith(lowered, ".xlsx") || EndsWith(lowered, ".xls") then Some(Spreadsheet)
    else if EndsWith(lowered, ".csv") then Some(Csv)
    else if EndsWith(lowered, ".txt") then Some(TabText)
    else None
  }

  /** The format each recognised lower-case suffix stands for. */
  function SuffixFormat(suffix: string): Option<Format>
  {
    if suffix == ".xlsx" || suffix == ".xls" then Some(Spreadsheet)
    else if suffix == ".csv" then Some(Csv)
    else if suffix == ".txt" then Some(TabText)
    else None
  }

  // ---------------------------------------------------------------------
  // The reader calls the loader issues

  function ProbeCall<E>(d: char, enc: E): ReadCall<E>
  {
    ReadCsv(Given(d), Some(enc), Some(ProbeRows))
  }

  function FullCall<E>(d: char, enc: E): ReadCall<E>
  {
    ReadCsv(Given(d), Some(enc), None)
  }

  function FallbackCall<E>(enc: E): ReadCall<E>
  {
    ReadCsv(Default, Some(enc), None)
  }

  function TextCall<E>(): ReadCall<E>
  {
    ReadCsv(Given('\t'), None, None)
  }

  /** The probe with `d` returned a table of more than one column. */
  predicate Splits<V, E>(read: ReadCall<E> -> Option<Table<V>>, enc: E, d: char)
  {
    read(ProbeCall(d, enc)).Some? && |read(ProbeCall(d, enc)).value.columns| > 1
  }

  /** The loop returns with `d`: its probe splits and its full parse, which
      sits inside the same exception handler, does not raise. */
  predicate Accepts<V, E>(read: ReadCall<E> -> Option<Table<V>>, enc: E, d: char)
  {
    Splits(read, enc, d) && read(FullCall(d, enc)).Some?
  }

  /** Index of the first candidate at or after `k` that is accepted. */
  function FirstAccepted<V, E>(cands: seq<char>, k: nat, read: ReadCall<E> -> Option<Table<V>>, enc: E): Option<nat>
    requires k <= |cands|
    decreases |cands| - k
  {
    if k == |cands| then None
    else if Accepts(read, enc, cands[k]) then Some(k)
    else FirstAccepted(cands, k + 1, read, enc)
  }

  /** `FirstAccepted` finds the first accepted candidate from `k` on, and
      finds none exactly when none is accepted. */
  lemma {:induction false} FirstAcceptedSpec<V, E>(cands: seq<char>, k: nat, read: ReadCall<E> -> Option<Table<V>>, enc: E)
    requires k <= |cands|
    ensures var r := FirstAccepted(cands, k, read, enc);
            r.Some? ==> k <= r.value < |cands| && Accepts(read, enc, cands[r.value])
                        && forall j :: k <= j < r.value ==> !Accepts(read, enc, cands[j])
    ensures FirstAccepted(cands, k, read, enc).None? <==> forall j :: k <= j < |cands| ==> !Accepts(read, enc, cands[j])
    decreases |cands| - k
  {
    if k < |cands| && !Accepts(read, enc, cands[k]) {
      FirstAcceptedSpec(cands, k + 1, read, enc);
    }
  }

  /** The calls one pass of the delimiter loop issues for `d`. */
  function AttemptCalls<V, E>(read: ReadCall<E> -> Option<Table<V>>, enc: E, d: char): seq<ReadCall<E>>
  {
    [ProbeCall(d, enc)] + if Splits(read, enc, d) then [FullCall(d, enc)] else []
  }

  /** The calls the delimiter loop issues from candidate `k` on. */
  function ScanCalls<V, E>(cands: seq<char>, k: nat, read: ReadCall<E> -> Option<Table<V>>, enc: E): seq<ReadCall<E>>
    requires k <= |cands|
    decreases |cands| - k
  {
    if k == |cands| then []
    else AttemptCalls(read, enc, cands[k])
         + if Accepts(read, enc, cands[k]) then [] else ScanCalls(cands, k + 1, read, enc)
  }

  function Outcome<V, E>(read: ReadCall<E> -> Option<Table<V>>, call: ReadCall<E>): Result<Table<V>, LoadError>
  {
    match read(call)
    case Some(t) => Success(t)
    case None => Failure(LoadFailure)
  }

  /** What the CSV branch yields: the full parse with the first accepted
      delimiter, or else the fallback parse. */
  function CsvOutcome<V, E>(read: ReadCall<E> -> Option<Table<V>>, enc: E): Result<Table<V>, LoadError>
  {
    match FirstAccepted(Candidates, 0, read, enc)
    case Some(i) => Outcome(read, FullCall(Candidates[i], enc))
    case None => Outcome(read, FallbackCall(enc))
  }

  /** The reader calls the CSV branch issues, in order. */
  function CsvCalls<V, E>(read: ReadCall<E> -> Option<Table<V>>, enc: E): seq<ReadCall<E>>
  {
    ScanCalls(Candidates, 0, read, enc)
    + if FirstAccepted(Candidates, 0, read, enc).None? then [FallbackCall(enc)] else []
  }

  /** What loading the file `name` yields. */
  function Load<V, E>(name: string, enc: E, read: ReadCall<E> -> Option<Table<V>>): Result<Table<V>, LoadError>
  {
    match Dispatch(name)
    case None => Failure(Unsupported)
    case Some(Spreadsheet) => Outcome(read, ReadExcel)
    case Some(TabText) => Outcome(read, TextCall())
    case Some(Csv) => CsvOutcome(read, enc)
  }

  /** The reader calls loading the file `name` issues, in order. */
  function LoadCalls<V, E>(name: string, enc: E, read: ReadCall<E> -> Option<Table<V>>): seq<ReadCall<E>>
  {
    match Dispatch(name)
    case None => []
    case Some(Spreadsheet) => [ReadExcel]
    case Some(TabText) => [TextCall()]
    case Some(Csv) => CsvCalls(read, enc)
  }

  /** The scan passes over a candidate that is not accepted. */
  lemma ScanPasses<V, E>(cands: seq<char>, k: nat, read: ReadCall<E> -> Option<Table<V>>, enc: E)
    requires k < |cands| && !Accepts(read, enc, cands[k])
    ensures ScanCalls(cands, k, read, enc) == AttemptCalls(read, enc, cands[k]) + ScanCalls(cands, k + 1, read, enc)
    ensures FirstAccepted(cands, k, read, enc) == FirstAccepted(cands, k + 1, read, enc)
  {
  }

  /** The scan stops at a candidate that is accepted. */
  lemma ScanStops<V, E>(cands: seq<char>, k: nat, read: ReadCall<E> -> Option<Table<V>>, enc: E)
    requires k < |cands| && Accepts(read, enc, cands[k])
    ensures ScanCalls(cands, k, read, enc) == AttemptCalls(read, enc, cands[k])
    ensures FirstAccepted(cands, k, read, enc) == Some(k)
  {
  }

  /** One pass of the delimiter loop: probe with `d`, and when the probe
      gives more than one column, parse the whole file with `d`. A call
      that raises ends the pass without a table. */
  method TryDelimiter<V, E>(d: char, enc: E, read: ReadCall<E> -> Option<Table<V>>)
    returns (found: Option<Table<V>>, attempt: seq<ReadCall<E>>)
    ensures attempt == AttemptCalls(read, enc, d)
    ensures found.Some? <==> Accepts(read, enc, d)
    ensures found.Some? ==> found == read(FullCall(d, enc))
  {
    found := None;
    attempt := [ProbeCall(d, enc)];
    var probe := read(ProbeCall(d, enc));
    if probe.Some? && |probe.value.columns| > 1 {
      attempt := attempt + [FullCall(d, enc)];
      found := read(FullCall(d, enc));
    }
  }

  /** The calls of the first `k` passes of the loop, when none of them
      accepted its candidate. */
  function ScanPrefix<V, E>(cands: seq<char>, k: nat, read: ReadCall<E> -> Option<Table<V>>, enc: E): seq<ReadCall<E>>
    requires k <= |cands|
  {
    if k == 0 then [] else ScanPrefix(cands, k - 1, read, enc) + AttemptCalls(read, enc, cands[k - 1])
  }

  lemma Regroup<T>(whole: seq<T>, before: seq<T>, rest: seq<T>, step: seq<T>, after: seq<T>)
    requires whole == before + rest && rest == step + after
    ensures whole == (before + step) + after
  {
    assert before + (step + after) == (before + step) + after;
  }

  /** When the first `k` candidates are all passed over, the scan's calls
      are those of the first `k` passes followed by the scan from `k`. */
  lemma {:induction false} ScanSplit<V, E>(cands: seq<char>, k: nat, read: ReadCall<E> -> Option<Table<V>>, enc: E)
    requires k <= |cands|
    requires forall j :: 0 <= j < k ==> !Accepts(read, enc, cands[j])
    ensures ScanCalls(cands, 0, read, enc) == ScanPrefix(cands, k, read, enc) + ScanCalls(cands, k, read, enc)
  {
    if k > 0 {
      ScanSplit(cands, k - 1, read, enc);
      ScanPasses(cands, k - 1, read, enc);
      Regroup(ScanCalls(cands, 0, read, enc), ScanPrefix(cands, k - 1, read, enc),
              ScanCalls(cands, k - 1, read, enc), AttemptCalls(read, enc, cands[k - 1]), ScanCalls(cands, k, read, enc));
    }
  }

  /** The CSV branch: the delimiter loop with its early return, then the
      fallback parse that passes no separator. */
  method LoadCsv<V, E>(enc: E, read: ReadCall<E> -> Option<Table<V>>)
    returns (r: Result<Table<V>, LoadError>, calls: seq<ReadCall<E>>)
    ensures r == CsvOutcome(read, enc)
    ensures calls == CsvCalls(read, enc)
  {
    calls := [];
    for k := 0 to |Candidates|
      invariant calls == ScanPrefix(Candidates, k, read, enc)
      invariant forall j :: 0 <= j < k ==> !Accepts(read, enc, Candidates[j])
      invariant FirstAccepted(Candidates, k, read, enc) == FirstAccepted(Candidates, 0, read, enc)
    {
      var found, attempt := TryDelimiter(Candidates[k], enc, read);
      if found.Some? {
        ScanStops(Candidates, k, read, enc);
        ScanSplit(Candidates, k, read, enc);
        calls := calls + attempt;
        r := Success(found.value);
        return;
      }
      ScanPasses(Candidates, k, read, enc);
      calls := calls + attempt;
    }
    ScanSplit(Candidates, |Candidates|, read, enc);
    calls := calls + [FallbackCall(enc)];
    r := Outcome(read, FallbackCall(enc));
  }

  /** The loader: suffix dispatch on the lower-cased name, then the reader
      of that format. Returns the outcome and the reader calls it made. */
  method LoadFile<V, E>(name: string, enc: E, read: ReadCall<E> -> Option<Table<V>>)
    returns (r: Result<Table<V>, LoadError>, calls: seq<ReadCall<E>>)
    ensures r == Load(name, enc, read)
    ensures calls == LoadCalls(name, enc, read)
  {
    match Dispatch(name)
    case Some(Spreadsheet) =>
      calls := [ReadExcel];
      r := Outcome(read, ReadExcel);
    case Some(Csv) =>
      r, calls := LoadCsv(enc, read);
    case Some(TabText) =>
      calls := [TextCall()];
      r := Outcome(read, TextCall());
    case None =>
      calls := [];
      r := Failure(Unsupported);
  }
}

/** What the loader promises, stated over the specification functions of
    module Loader. */
module LoaderProperties {
  import opened Frames
  import opened Loader

  // ---------------------------------------------------------------------
  // Suffix dispatch

  lemma EndsWithLast(s: string, suffix: string)
    requires EndsWith(s, suffix) && |suffix| > 0
    ensures |s| > 0 && s[|s| - 1] == suffix[|suffix| - 1]
  {
    assert s[|s| - |suffix|..][|suffix| - 1] == s[|s| - 1];
  }

  /** Each format is selected exactly when the lower-cased name carries one
      of its suffixes, and every other name is refused. */
  lemma DispatchSpec(name: string)
    ensures Dispatch(name) == Some(Spreadsheet)
            <==> EndsWith(Lower(name), ".xlsx") || EndsWith(Lower(name), ".xls")
    ensures Dispatch(name) == Some(Csv) <==> EndsWith(Lower(name), ".csv")
    ensures Dispatch(name) == Some(TabText) <==> EndsWith(Lower(name), ".txt")
    ensures Dispatch(name) == None
            <==> !EndsWith(Lower(name), ".xlsx") && !EndsWith(Lower(name), ".xls")
                 && !EndsWith(Lower(name), ".csv") && !EndsWith(Lower(name), ".txt")
  {
    var n := Lower(name);
    if EndsWith(n, ".csv") { EndsWithLast(n, ".csv"); }
    if EndsWith(n, ".txt") { EndsWithLast(n, ".txt"); }
    if EndsWith(n, ".xlsx") { EndsWithLast(n, ".xlsx"); }
    if EndsWith(n, ".xls") { EndsWithLast(n, ".xls"); }
  }

  lemma LowerAppend(a: string, b: string)
    ensures Lower(a + b) == Lower(a) + Lower(b)
  {
    assert forall i :: 0 <= i < |a + b| ==> Lower(a + b)[i] == (Lower(a) + Lower(b))[i];
  }

  /** Whatever comes before it, a recognised suffix written in any mix of
      upper and lower case selects its format. */
  lemma DispatchSuffix(stem: string, ext: string)
    requires SuffixFormat(Lower(ext)).Some?
    ensures Dispatch(stem + ext) == SuffixFormat(Lower(ext))
  {
    var n := Lower(stem + ext);
    LowerAppend(stem, ext);
    assert n[|n| - |ext|..] == Lower(ext);
    assert EndsWith(n, Lower(ext));
    DispatchSpec(stem + ext);
  }

  /** Names ending in ".json" or ".pdf" are refused, whatever their stem. */
  lemma UnsupportedSuffixes(stem: string)
    ensures Dispatch(stem + ".json") == None
    ensures Dispatch(stem + ".pdf") == None
  {
    Unrecognised(stem + ".json");
    Unrecognised(stem + ".pdf");
  }

  /** A name whose last character folds to none of 'x', 's', 'v', 't' is
      refused. */
  lemma Unrecognised(name: string)
    requires |name| > 0 && LowerChar(name[|name| - 1]) !in {'x', 's', 'v', 't'}
    ensures Dispatch(name) == None
  {
    var n := Lower(name);
    if EndsWith(n, ".csv") { EndsWithLast(n, ".csv"); }
    if EndsWith(n, ".txt") { EndsWithLast(n, ".txt"); }
    if EndsWith(n, ".xlsx") { EndsWithLast(n, ".xlsx"); }
    if EndsWith(n, ".xls") { EndsWithLast(n, ".xls"); }
  }

  /** Dispatch does not depend on the case of the name's letters. */
  lemma DispatchIgnoresCase(name: string)
    ensures Dispatch(Upper(name)) == Dispatch(name)
    ensures Dispatch(Lower(name)) == Dispatch(name)
  {
    LowerAfterUpper(name);
    SameLowerSameDispatch(Upper(name), name);
    LowerTwice(name);
    SameLowerSameDispatch(Lower(name), name);
  }

  lemma SameLowerSameDispatch(a: string, b: string)
    requires Lower(a) == Lower(b)
    ensures Dispatch(a) == Dispatch(b)
  {
  }

  lemma LowerAfterUpper(s: string)
    ensures Lower(Upper(s)) == Lower(s)
  {
    var u := Upper(s);
    forall i | 0 <= i < |s|
      ensures Lower(u)[i] == Lower(s)[i]
    {
      assert Lower(u)[i] == LowerChar(UpperChar(s[i]));
    }
  }

  lemma LowerTwice(s: string)
    ensures Lower(Lower(s)) == Lower(s)
  {
    var l := Lower(s);
    forall i | 0 <= i < |s|
      ensures Lower(l)[i] == l[i]
    {
      assert Lower(l)[i] == LowerChar(LowerChar(s[i]));
    }
  }

  /** An unsupported name fails without any reader being called, whatever
      the readers would have done. */
  lemma UnsupportedNeverReads<V, E>(name: string, enc: E, read: ReadCall<E> -> Option<Table<V>>)
    requires Dispatch(name) == None
    ensures Load(name, enc, read) == Failure(Unsupported)
    ensures LoadCalls(name, enc, read) == []
  {
  }

  /** A `.txt` file is read once, tab-delimited, with no encoding given. */
  lemma TextIsTabDelimited<V, E>(name: string, enc: E, read: ReadCall<E> -> Option<Table<V>>)
    requires Dispatch(name) == Some(TabText)
    ensures LoadCalls(name, enc, read) == [ReadCsv(Given('\t'), None, None)]
    ensures Load(name, enc, read) == Outcome(read, ReadCsv(Given('\t'), None, None))
  {
  }

  // ---------------------------------------------------------------------
  // The delimiter loop

  /** The delimiter a call probes with, if it is a probe. */
  function ProbedBy<E>(c: ReadCall<E>): seq<char>
  {
    if c.ReadCsv? && c.sep.Given? && c.nrows.Some? then [c.sep.delim] else []
  }

  /** The delimiters probed by a sequence of reader calls, in call order. */
  function Probed<E>(calls: seq<ReadCall<E>>): (ds: seq<char>)
    ensures |ds| <= |calls|
  {
    if calls == [] then [] else ProbedBy(calls[0]) + Probed(calls[1..])
  }

  lemma {:induction false} ProbedAppend<E>(a: seq<ReadCall<E>>, b: seq<ReadCall<E>>)
    ensures Probed(a + b) == Probed(a) + Probed(b)
  {
    if a == [] {
      assert a + b == b;
    } else {
      assert (a + b)[0] == a[0];
      assert (a + b)[1..] == a[1..] + b;
      ProbedAppend(a[1..], b);
    }
  }

  lemma ProbedAttempt<V, E>(read: ReadCall<E> -> Option<Table<V>>, enc: E, d: char)
    ensures Probed(AttemptCalls(read, enc, d)) == [d]
  {
    var attempt := AttemptCalls(read, enc, d);
    assert attempt[1..] == if Splits(read, enc, d) then [FullCall(d, enc)] else [];
    if Splits(read, enc, d) {
      assert attempt[1..][1..] == [];
    }
  }

  /** Candidates are probed one at a time, in list order, from `k` up to and
      including the accepted one (or all of them when none is accepted). */
  lemma {:induction false} ProbesInOrder<V, E>(cands: seq<char>, k: nat, read: ReadCall<E> -> Option<Table<V>>, enc: E)
    requires k <= |cands|
    ensures Probed(ScanCalls(cands, k, read, enc)) == cands[k..ProbeEnd(cands, k, read, enc)]
    decreases |cands| - k
  {
    if k < |cands| {
      if Accepts(read, enc, cands[k]) {
        ProbesStop(cands, k, read, enc);
      } else {
        ProbesInOrder(cands, k + 1, read, enc);
        ProbesPass(cands, k, read, enc);
      }
    }
  }

  lemma ProbesStop<V, E>(cands: seq<char>, k: nat, read: ReadCall<E> -> Option<Table<V>>, enc: E)
    requires k < |cands| && Accepts(read, enc, cands[k])
    ensures Probed(ScanCalls(cands, k, read, enc)) == cands[k..ProbeEnd(cands, k, read, enc)]
  {
    ProbedAttempt(read, enc, cands[k]);
    ScanStops(cands, k, read, enc);
    assert ProbeEnd(cands, k, read, enc) == k + 1;
  }

  lemma ProbesPass<V, E>(cands: seq<char>, k: nat, read: ReadCall<E> -> Option<Table<V>>, enc: E)
    requires k < |cands| && !Accepts(read, enc, cands[k])
    requires Probed(ScanCalls(cands, k + 1, read, enc)) == cands[k + 1..ProbeEnd(cands, k + 1, read, enc)]
    ensures Probed(ScanCalls(cands, k, read, enc)) == cands[k..ProbeEnd(cands, k, read, enc)]
  {
    ProbedPass(cands, k, read, enc);
    ProbeEndPass(cands, k, read, enc);
  }

  lemma ProbedPass<V, E>(cands: seq<char>, k: nat, read: ReadCall<E> -> Option<Table<V>>, enc: E)
    requires k < |cands| && !Accepts(read, enc, cands[k])
    ensures Probed(ScanCalls(cands, k, read, enc)) == [cands[k]] + Probed(ScanCalls(cands, k + 1, read, enc))
  {
    ProbedAttempt(read, enc, cands[k]);
    ScanPasses(cands, k, read, enc);
    ProbedAppend(AttemptCalls(read, enc, cands[k]), ScanCalls(cands, k + 1, read, enc));
  }

  lemma ProbeEndPass<V, E>(cands: seq<char>, k: nat, read: ReadCall<E> -> Option<Table<V>>, enc: E)
    requires k < |cands| && !Accepts(read, enc, cands[k])
    ensures ProbeEnd(cands, k, read, enc) == ProbeEnd(cands, k + 1, read, enc)
    ensures cands[k..ProbeEnd(cands, k, read, enc)] == [cands[k]] + cands[k + 1..ProbeEnd(cands, k + 1, read, enc)]
  {
    ScanPasses(cands, k, read, enc);
  }

  /** One past the last candidate the scan from `k` probes. */
  function ProbeEnd<V, E>(cands: seq<char>, k: nat, read: ReadCall<E> -> Option<Table<V>>, enc: E): (e: nat)
    requires k <= |cands|
    ensures k <= e <= |cands|
  {
    FirstAcceptedSpec(cands, k, read, enc);
    match FirstAccepted(cands, k, read, enc)
    case Some(i) => i + 1
    case None => |cands|
  }

  /** Every call of the delimiter loop names a delimiter and passes the
      detected encoding, and the first one is a probe. */
  lemma {:induction false} ScanCallsShape<V, E>(cands: seq<char>, k: nat, read: ReadCall<E> -> Option<Table<V>>, enc: E)
    requires k <= |cands|
    ensures forall c :: c in ScanCalls(cands, k, read, enc) ==>
              c.ReadCsv? && c.sep.Given? && c.encoding == Some(enc)
    ensures ScanCalls(cands, k, read, enc) != [] ==> ScanCalls(cands, k, read, enc)[0].nrows.Some?
    decreases |cands| - k
  {
    if k < |cands| && !Accepts(read, enc, cands[k]) {
      ScanCallsShape(cands, k + 1, read, enc);
    }
  }

  /** Each full parse of the delimiter loop comes right after the probe with
      the same delimiter and encoding. */
  lemma {:induction false} FullParseFollowsProbe<V, E>(cands: seq<char>, k: nat, read: ReadCall<E> -> Option<Table<V>>, enc: E)
    requires k <= |cands|
    ensures forall p, d :: 0 <= p < |ScanCalls(cands, k, read, enc)| && ScanCalls(cands, k, read, enc)[p] == FullCall(d, enc) ==>
              p > 0 && ScanCalls(cands, k, read, enc)[p - 1] == ProbeCall(d, enc)
    decreases |cands| - k
  {
    if k < |cands| {
      var d := cands[k];
      var attempt := AttemptCalls(read, enc, d);
      assert attempt[0] == ProbeCall(d, enc);
      assert |attempt| == 2 ==> attempt[1] == FullCall(d, enc);
      var rest := if Accepts(read, enc, d) then [] else ScanCalls(cands, k + 1, read, enc);
      if !Accepts(read, enc, d) {
        FullParseFollowsProbe(cands, k + 1, read, enc);
        ScanCallsShape(cands, k + 1, read, enc);
      }
      var all := attempt + rest;
      assert all == ScanCalls(cands, k, read, enc);
      forall p, d' | 0 <= p < |all| && all[p] == FullCall(d', enc)
        ensures p > 0 && all[p - 1] == ProbeCall(d', enc)
      {
        if p >= |attempt| {
          var q := p - |attempt|;
          assert all[p] == rest[q];
          assert all[p - 1] == rest[q - 1];
        }
      }
    }
  }

  // ---------------------------------------------------------------------
  // The CSV branch as a whole

  /** When candidate `i` is the first accepted one, the loader returns the
      full parse with exactly that delimiter and the detected encoding; it
      probed the candidates up to `i` in order, never a later one, and never
      reached the fallback parse. */
  lemma CsvAccepted<V, E>(name: string, enc: E, read: ReadCall<E> -> Option<Table<V>>, i: nat)
    requires Dispatch(name) == Some(Csv)
    requires i < |Candidates| && Accepts(read, enc, Candidates[i])
    requires forall j :: 0 <= j < i ==> !Accepts(read, enc, Candidates[j])
    ensures Load(name, enc, read) == Success(read(FullCall(Candidates[i], enc)).value)
    ensures Probed(LoadCalls(name, enc, read)) == Candidates[..i + 1]
    ensures LoadCalls(name, enc, read)[|LoadCalls(name, enc, read)| - 1] == FullCall(Candidates[i], enc)
    ensures FallbackCall(enc) !in LoadCalls(name, enc, read)
  {
    FirstAcceptedSpec(Candidates, 0, read, enc);
    var first := FirstAccepted(Candidates, 0, read, enc);
    assert first == Some(i);
    ProbesInOrder(Candidates, 0, read, enc);
    ScanCallsShape(Candidates, 0, read, enc);
    var calls := ScanCalls(Candidates, 0, read, enc);
    assert calls == LoadCalls(name, enc, read);
    assert Probed(calls) == Candidates[0..i + 1];
    assert calls != [] by { assert |Probed(calls)| > 0; }
    var c := calls[|calls| - 1];
    if c != FullCall(Candidates[i], enc) {
      ScanLast(Candidates, 0, read, enc, i);
    }
  }

  /** The last call of a scan that accepts is the full parse of the accepted
      delimiter. */
  lemma {:induction false} ScanLast<V, E>(cands: seq<char>, k: nat, read: ReadCall<E> -> Option<Table<V>>, enc: E, i: nat)
    requires k <= i < |cands| && FirstAccepted(cands, k, read, enc) == Some(i)
    ensures ScanCalls(cands, k, read, enc) != []
    ensures ScanCalls(cands, k, read, enc)[|ScanCalls(cands, k, read, enc)| - 1] == FullCall(cands[i], enc)
    decreases |cands| - k
  {
    if !Accepts(read, enc, cands[k]) {
      FirstAcceptedSpec(cands, k + 1, read, enc);
      ScanLast(cands, k + 1, read, enc, i);
    }
  }

  /** When no candidate is accepted the loader probes all three in order and
      then returns the fallback parse with the detected encoding. */
  lemma CsvFallback<V, E>(name: string, enc: E, read: ReadCall<E> -> Option<Table<V>>)
    requires Dispatch(name) == Some(Csv)
    requires forall j :: 0 <= j < |Candidates| ==> !Accepts(read, enc, Candidates[j])
    ensures Load(name, enc, read) == Outcome(read, FallbackCall(enc))
    ensures Probed(LoadCalls(name, enc, read)) == Candidates
    ensures LoadCalls(name, enc, read)[|LoadCalls(name, enc, read)| - 1] == FallbackCall(enc)
  {
    FirstAcceptedSpec(Candidates, 0, read, enc);
    var first := FirstAccepted(Candidates, 0, read, enc);
    assert first == None;
    ProbesInOrder(Candidates, 0, read, enc);
    ProbedAppend(ScanCalls(Candidates, 0, read, enc), [FallbackCall(enc)]);
    assert Probed([FallbackCall(enc)]) == [];
  }

  /** The fallback parse is issued exactly when no candidate is accepted. */
  lemma FallbackIffNoneAccepted<V, E>(name: string, enc: E, read: ReadCall<E> -> Option<Table<V>>)
    requires Dispatch(name) == Some(Csv)
    ensures FallbackCall(enc) in LoadCalls(name, enc, read)
            <==> forall j :: 0 <= j < |Candidates| ==> !Accepts(read, enc, Candidates[j])
  {
    ScanCallsShape(Candidates, 0, read, enc);
    FirstAcceptedSpec(Candidates, 0, read, enc);
    if FirstAccepted(Candidates, 0, read, enc).Some? {
      assert FallbackCall(enc) !in ScanCalls(Candidates, 0, read, enc);
    }
  }

  /** Every reader call of the CSV branch passes the detected encoding. */
  lemma CsvUsesDetectedEncoding<V, E>(name: string, enc: E, read: ReadCall<E> -> Option<Table<V>>)
    requires Dispatch(name) == Some(Csv)
    ensures forall c :: c in LoadCalls(name, enc, read) ==> c.ReadCsv? && c.encoding == Some(enc)
  {
    ScanCallsShape(Candidates, 0, read, enc);
  }

  /** A probe that raises is passed over: the choice and the calls after it
      are those of the remaining candidates. */
  lemma RaisingProbeSkipped<V, E>(cands: seq<char>, k: nat, read: ReadCall<E> -> Option<Table<V>>, enc: E)
    requires k < |cands| && read(ProbeCall(cands[k], enc)).None?
    ensures FirstAccepted(cands, k, read, enc)
            == FirstAccepted(cands, k + 1, read, enc)
    ensures ScanCalls(cands, k, read, enc)
            == [ProbeCall(cands[k], enc)] + ScanCalls(cands, k + 1, read, enc)
  {
  }

  /** A full parse that raises after a probe that split is passed over too,
      since it sits inside the same exception handler. */
  lemma FailedFullParseSkipped<V, E>(cands: seq<char>, k: nat, read: ReadCall<E> -> Option<Table<V>>, enc: E)
    requires k < |cands| && Splits(read, enc, cands[k]) && read(FullCall(cands[k], enc)).None?
    ensures FirstAccepted(cands, k, read, enc)
            == FirstAccepted(cands, k + 1, read, enc)
    ensures ScanCalls(cands, k, read, enc)
            == [ProbeCall(cands[k], enc), FullCall(cands[k], enc)] + ScanCalls(cands, k + 1, read, enc)
  {
  }

  /** A comma probe that raises does not keep the semicolon from being
      chosen. */
  lemma CommaRaisesSemicolonChosen<V, E>(name: string, enc: E, read: ReadCall<E> -> Option<Table<V>>)
    requires Dispatch(name) == Some(Csv)
    requires read(ProbeCall(',', enc)).None? && Accepts(read, enc, ';')
    ensures Load(name, enc, read) == Success(read(FullCall(';', enc)).value)
    ensures Probed(LoadCalls(name, enc, read)) == [',', ';']
  {
    CsvAccepted(name, enc, read, 1);
    assert Candidates[..2] == [',', ';'];
  }
}
