/** The missing-job report of show_missing_jobs: the job ids of the input
    files that no output file carries, sorted, printed either as one
    reconstructed input filename per line or as one comma-separated line.
    The two filename lists that `glob` matched are parameters, and the
    lines that would be printed are returned. */
module MissingJobs {
  import opened Text
  import opened Order
  import opened Sorting

  /** The only failure: a matched filename whose basename has no '.', so
      that `split('.')[1]` is out of range. Python raises an IndexError that
      names no file, and the whole run aborts. */
  datatype Error = MalformedName

  datatype Result<T> = Ok(value: T) | Err(error: Error)

  /** The job id of a filename: the second '.'-separated piece of its
      basename. */
  function ExtractId(path: string): (r: Result<string>)
    ensures r.Err? <==> '.' !in Basename(path)
    ensures r.Ok? ==> '.' !in r.value
  {
    var parts := Split(Basename(path), '.');
    if |parts| < 2 then Err(MalformedName) else Ok(parts[1])
  }

  /** A job id is cut out of a basename, so it holds no '/'. */
  lemma ExtractIdHasNoSlash(path: string)
    requires ExtractId(path).Ok?
    ensures '/' !in ExtractId(path).value
  {
    SplitPiecesWithin(Basename(path), '.');
  }

  /** The set of job ids of `names` (`set([... for i in names])`); it fails
      as soon as one name is malformed. */
  function IdSet(names: seq<string>): (r: Result<set<string>>)
  {
    if names == [] then Ok({})
    else
      match ExtractId(names[0])
      case Err(e) => Err(e)
      case Ok(id) =>
        match IdSet(names[1..])
        case Err(e) => Err(e)
        case Ok(rest) => Ok({id} + rest)
  }

  /** The job-id set fails exactly when some name is malformed, and otherwise
      holds exactly the ids of the names. */
  lemma {:induction false} IdSetMeaning(names: seq<string>)
    ensures IdSet(names).Err? <==> exists n :: n in names && ExtractId(n).Err?
    ensures IdSet(names).Ok? ==>
              forall id :: id in IdSet(names).value <==> exists n :: n in names && ExtractId(n) == Ok(id)
  {
    if names != [] {
      IdSetMeaning(names[1..]);
      assert forall n :: n in names <==> n == names[0] || n in names[1..];
    }
  }

  /** `inset - outset`: the input ids no output file carries. The input ids
      are computed first, so a malformed input name fails before the output
      ids are extracted; both failures are the same error. */
  function MissingSet(inNames: seq<string>, outNames: seq<string>): (r: Result<set<string>>)
  {
    match IdSet(inNames)
    case Err(e) => Err(e)
    case Ok(ins) =>
      match IdSet(outNames)
      case Err(e) => Err(e)
      case Ok(outs) => Ok(ins - outs)
  }

  /** The default-mode line of every id: `inbase + "." + id`. */
  function DefaultLines(inbase: string, ids: seq<string>): (lines: seq<string>)
  {
    seq(|ids|, i requires 0 <= i < |ids| => inbase + "." + ids[i])
  }

  /** The CSV tokens: each id without its leading '0' characters. */
  function CsvTokens(ids: seq<string>): (tokens: seq<string>)
  {
    seq(|ids|, i requires 0 <= i < |ids| => LStripZeros(ids[i]))
  }

  /** The single CSV-mode line: the tokens joined by ','. */
  function CsvLine(ids: seq<string>): (line: string)
  {
    Join(CsvTokens(ids), ',')
  }

  /** The lines printed for the sorted missing ids `ids`: one CSV line in CSV
      mode (empty when `ids` is), otherwise one line per id. */
  function Render(inbase: string, csvWanted: bool, ids: seq<string>): (lines: seq<string>)
  {
    if csvWanted then [CsvLine(ids)] else DefaultLines(inbase, ids)
  }

  /** The sorted missing ids, as a value: the reference for the report. */
  ghost function MissingIds(inNames: seq<string>, outNames: seq<string>): (r: Result<seq<string>>)
  {
    match MissingSet(inNames, outNames)
    case Err(e) => Err(e)
    case Ok(s) => Ok(SortedList(s))
  }

  /** What the program prints, line by line, or the error that aborts it. */
  ghost function ReportSpec(inNames: seq<string>, outNames: seq<string>, inbase: string, csvWanted: bool)
    : (r: Result<seq<string>>)
  {
    match MissingIds(inNames, outNames)
    case Err(e) => Err(e)
    case Ok(ids) => Ok(Render(inbase, csvWanted, ids))
  }

  /** `list(s)`: the elements of a set in an order the set does not fix. */
  method ListOfSet(s: set<string>) returns (xs: seq<string>)
    ensures multiset(xs) == multiset(s)
  {
    xs := [];
    var rest := s;
    while rest != {}
      invariant rest <= s
      invariant multiset(xs) + multiset(rest) == multiset(s)
      decreases rest
    {
      var x :| x in rest;
      assert multiset(rest) == multiset(rest - {x}) + multiset{x};
      xs := xs + [x];
      rest := rest - {x};
    }
  }

  /** The default-mode loop: one line `inbase.id` per id, in order. */
  method EmitLines(inbase: string, ids: seq<string>) returns (lines: seq<string>)
    ensures |lines| == |ids|
    ensures forall i :: 0 <= i < |ids| ==> lines[i] == inbase + "." + ids[i]
  {
    lines := [];
    for i := 0 to |ids|
      invariant |lines| == i
      invariant forall k :: 0 <= k < i ==> lines[k] == inbase + "." + ids[k]
    {
      lines := lines + [inbase + "." + ids[i]];
    }
  }

  /** `difflist = list(s); difflist.sort()`: the ids of `s`, listed and then
      sorted in place, are the sorted list of `s`. */
  method SortedIdList(s: set<string>) returns (ids: seq<string>)
    ensures ids == SortedList(s)
  {
    var diff := ListOfSet(s);
    var a := new string[|diff|](i requires 0 <= i < |diff| => diff[i]);
    assert a[..] == diff;
    SortIds(a);
    ids := a[..];
    SortedUnique(ids, SortedList(s));
  }

  /** The program: extract the ids of both lists, take the difference, list
      and sort it, and format it. */
  method Report(inNames: seq<string>, outNames: seq<string>, inbase: string, csvWanted: bool)
    returns (r: Result<seq<string>>)
    ensures r == ReportSpec(inNames, outNames, inbase, csvWanted)
  {
    var missing := MissingSet(inNames, outNames);
    if missing.Err? {
      return Err(missing.error);
    }
    var ids := SortedIdList(missing.value);
    if csvWanted {
      r := Ok([CsvLine(ids)]);
    } else {
      var lines := EmitLines(inbase, ids);
      assert lines == DefaultLines(inbase, ids);
      r := Ok(lines);
    }
  }

  // ---- Job-id extraction -------------------------------------------------

  /** A basename of the form `pre.id` or `pre.id.rest`, with `pre` and `id`
      free of '.', has job id `id`. */
  lemma ExtractIdOfShape(path: string, pre: string, id: string, post: string)
    requires Basename(path) == pre + "." + id + post
    requires '.' !in pre && '.' !in id
    requires post == [] || post[0] == '.'
    ensures ExtractId(path) == Ok(id)
  {
    SecondPiece(Basename(path), pre, id, post, '.');
  }

  /** Conversely, a job id is always the text between the first '.' of the
      basename, at the index `k` returned, and the next '.' or the end. */
  lemma ExtractIdShape(path: string) returns (k: nat)
    requires ExtractId(path).Ok?
    ensures SecondPieceAt(Basename(path), '.', ExtractId(path).value, k)
  {
    var b, id := Basename(path), ExtractId(path).value;
    assert id == Split(b, '.')[1];
    k := SecondPieceShape(b, '.', id);
  }

  // ---- Failure ------------------------------------------------------------

  /** The run aborts exactly when some matched name, input or output, has a
      basename without '.'; no malformed name is skipped. */
  lemma ReportFailsIff(inNames: seq<string>, outNames: seq<string>, inbase: string, csvWanted: bool)
    ensures ReportSpec(inNames, outNames, inbase, csvWanted).Err?
            <==> exists n :: (n in inNames || n in outNames) && '.' !in Basename(n)
  {
    IdSetMeaning(inNames);
    IdSetMeaning(outNames);
    if IdSet(inNames).Ok? && IdSet(outNames).Ok? {
      forall n | n in inNames || n in outNames
        ensures '.' in Basename(n)
      {
        assert ExtractId(n).Ok?;
      }
    }
  }

  // ---- The missing ids ----------------------------------------------------

  /** Soundness and completeness: the reported ids are exactly the ids of some
      input name and of no output name, ascending and each once. */
  lemma MissingIdsExact(inNames: seq<string>, outNames: seq<string>)
    requires MissingIds(inNames, outNames).Ok?
    ensures var ids := MissingIds(inNames, outNames).value;
      && Sorted(ids) && Distinct(ids)
      && forall id :: id in ids <==>
           (exists n :: n in inNames && ExtractId(n) == Ok(id)) &&
           !(exists n :: n in outNames && ExtractId(n) == Ok(id))
  {
    IdSetMeaning(inNames);
    IdSetMeaning(outNames);
    SortedListIsSet(MissingSet(inNames, outNames).value);
  }

  /** Every reported id is a '.'-free, '/'-free text. */
  lemma MissingIdsPlain(inNames: seq<string>, outNames: seq<string>)
    requires MissingIds(inNames, outNames).Ok?
    ensures forall id :: id in MissingIds(inNames, outNames).value ==> '.' !in id && '/' !in id
  {
    MissingIdsExact(inNames, outNames);
    forall id | id in MissingIds(inNames, outNames).value
      ensures '.' !in id && '/' !in id
    {
      var n :| n in inNames && ExtractId(n) == Ok(id);
      ExtractIdHasNoSlash(n);
    }
  }

  /** The job ids of a list depend only on which names it holds. */
  lemma IdSetOfSameNames(names1: seq<string>, names2: seq<string>)
    requires forall n :: n in names1 <==> n in names2
    ensures IdSet(names1) == IdSet(names2)
  {
    IdSetMeaning(names1);
    IdSetMeaning(names2);
    if IdSet(names1).Ok? {
      assert IdSet(names2).Ok?;
      assert IdSet(names1).value == IdSet(names2).value;
    } else {
      var n :| n in names1 && ExtractId(n).Err?;
      assert n in names2;
    }
  }

  /** Reordering or repeating names in either list changes nothing. */
  lemma ReportDependsOnlyOnNameSets(in1: seq<string>, in2: seq<string>, out1: seq<string>, out2: seq<string>,
                                    inbase: string, csvWanted: bool)
    requires forall n :: n in in1 <==> n in in2
    requires forall n :: n in out1 <==> n in out2
    ensures ReportSpec(in1, out1, inbase, csvWanted) == ReportSpec(in2, out2, inbase, csvWanted)
  {
    IdSetOfSameNames(in1, in2);
    IdSetOfSameNames(out1, out2);
  }

  // ---- Output formats -----------------------------------------------------

  /** The name `inbase.id` has job id `id` when the basename of `inbase` and
      `id` hold no '.' and `id` no '/'. */
  lemma ReconstructedNameId(inbase: string, id: string)
    requires '.' !in Basename(inbase)
    requires '.' !in id && '/' !in id
    ensures ExtractId(inbase + "." + id) == Ok(id)
  {
    BasenameAfterSeparator(inbase, '.', id);
    ExtractIdOfShape(inbase + "." + id, Basename(inbase), id, []);
  }

  /** Default mode prints one line `inbase.id` per missing id, in order (none
      when nothing is missing); when the basename of `inbase` has no '.',
      each line has its id as job id again. */
  lemma DefaultModeLines(inNames: seq<string>, outNames: seq<string>, inbase: string)
    requires MissingIds(inNames, outNames).Ok?
    ensures var ids := MissingIds(inNames, outNames).value;
      && ReportSpec(inNames, outNames, inbase, false).Ok?
      && var lines := ReportSpec(inNames, outNames, inbase, false).value;
      && |lines| == |ids|
      && (forall i :: 0 <= i < |ids| ==> lines[i] == inbase + "." + ids[i])
      && ('.' !in Basename(inbase) ==> forall i :: 0 <= i < |ids| ==> ExtractId(lines[i]) == Ok(ids[i]))
  {
    var ids := MissingIds(inNames, outNames).value;
    var lines := ReportSpec(inNames, outNames, inbase, false).value;
    if '.' !in Basename(inbase) {
      MissingIdsPlain(inNames, outNames);
      forall i | 0 <= i < |ids|
        ensures ExtractId(lines[i]) == Ok(ids[i])
      {
        assert ids[i] in ids;
        ReconstructedNameId(inbase, ids[i]);
      }
    }
  }

  /** The CSV line splits back on ',' into one token per id, provided there
      is at least one id and no id holds a ','. */
  lemma CsvLineSplits(ids: seq<string>)
    requires |ids| >= 1
    requires forall i :: 0 <= i < |ids| ==> ',' !in ids[i]
    ensures Split(CsvLine(ids), ',') == CsvTokens(ids)
  {
    var tokens := CsvTokens(ids);
    forall i | 0 <= i < |tokens|
      ensures ',' !in tokens[i]
    {
      var id := ids[i];
      assert tokens[i] == id[|id| - |tokens[i]|..];
    }
    SplitJoin(tokens, ',');
  }

  /** CSV mode prints a single line: the missing ids in order, each without
      leading '0's, joined by ','; the line is empty when nothing is missing. */
  lemma CsvModeLine(inNames: seq<string>, outNames: seq<string>, inbase: string)
    requires MissingIds(inNames, outNames).Ok?
    ensures var ids := MissingIds(inNames, outNames).value;
      && ReportSpec(inNames, outNames, inbase, true) == Ok([Join(CsvTokens(ids), ',')])
      && |CsvTokens(ids)| == |ids|
      && (forall i :: 0 <= i < |ids| ==> CsvTokens(ids)[i] == LStripZeros(ids[i]))
      && (ids == [] ==> CsvLine(ids) == "")
      && (ids != [] && (forall i :: 0 <= i < |ids| ==> ',' !in ids[i]) ==>
            Split(CsvLine(ids), ',') == CsvTokens(ids))
  {
    var ids := MissingIds(inNames, outNames).value;
    assert ReportSpec(inNames, outNames, inbase, true) == Ok(Render(inbase, true, ids));
    if ids != [] && (forall i :: 0 <= i < |ids| ==> ',' !in ids[i]) {
      CsvLineSplits(ids);
    }
  }
}
