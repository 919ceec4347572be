/** Worked runs of the report on small listings. */
module Scenarios {
  import opened Text
  import opened Order
  import opened Sorting
  import opened MissingJobs

  /** A name without '/' is its own basename. */
  lemma BasenameOfPlainName(name: string)
    requires '/' !in name
    ensures Basename(name) == name
  {
  }

  /** `job.<id><post>` has job id `id`. */
  lemma JobId(name: string, id: string, post: string)
    requires name == "job." + id + post
    requires '.' !in id && '/' !in id && '/' !in post
    requires post == [] || post[0] == '.'
    ensures ExtractId(name) == Ok(id)
  {
    assert '/' !in name by {
      assert forall c :: c in name ==> c in "job." || c in id || c in post;
    }
    BasenameOfPlainName(name);
    assert name == "job" + "." + id + post;
    ExtractIdOfShape(name, "job", id, post);
  }

  /** One more name in front of a list adds its id to the list's ids. */
  lemma IdSetCons(names: seq<string>, id: string, ids: set<string>)
    requires names != [] && ExtractId(names[0]) == Ok(id) && IdSet(names[1..]) == Ok(ids)
    ensures IdSet(names) == Ok({id} + ids)
  {
  }

  /** The missing set from the two id sets. */
  lemma MissingSetOf(ins: seq<string>, outs: seq<string>, inIds: set<string>, outIds: set<string>)
    requires IdSet(ins) == Ok(inIds) && IdSet(outs) == Ok(outIds)
    ensures MissingSet(ins, outs) == Ok(inIds - outIds)
  {
  }

  /** The report from the missing set. */
  lemma ReportOf(ins: seq<string>, outs: seq<string>, missing: set<string>, ids: seq<string>, csvWanted: bool)
    requires MissingSet(ins, outs) == Ok(missing) && SortedList(missing) == ids
    ensures ReportSpec(ins, outs, "job", csvWanted) == Ok(Render("job", csvWanted, ids))
  {
  }

  /** A single id sorts to itself. */
  lemma SortedSingle(id: string)
    ensures SortedList({id}) == [id]
  {
    var ids := SortedList({id});
    assert multiset(ids) == multiset{id};
    assert |ids| == 1 && ids[0] in multiset(ids);
  }

  /** The output for the single missing id 002. */
  lemma RenderOne002()
    ensures Render("job", false, ["002"]) == ["job.002"]
    ensures Render("job", true, ["002"]) == ["2"]
  {
    LineOf002();
    TokenOf002();
  }

  lemma LineOf002()
    ensures DefaultLines("job", ["002"]) == ["job.002"]
  {
    assert DefaultLines("job", ["002"])[0] == "job" + "." + "002" == "job.002";
  }

  lemma TokenOf002()
    ensures CsvLine(["002"]) == "2"
  {
    assert LStripZeros("002") == "2";
    assert CsvTokens(["002"]) == ["2"];
  }

  /** The output when nothing is missing. */
  lemma RenderNone()
    ensures Render("job", false, []) == []
    ensures Render("job", true, []) == [""]
  {
    assert |DefaultLines("job", [])| == 0;
    assert CsvTokens([]) == [];
  }

  /** The ids of three names, in order. */
  lemma IdSetOfThree(n1: string, n2: string, n3: string, id1: string, id2: string, id3: string)
    requires ExtractId(n1) == Ok(id1) && ExtractId(n2) == Ok(id2) && ExtractId(n3) == Ok(id3)
    ensures IdSet([n1, n2, n3]) == Ok({id1, id2, id3})
  {
    IdSetOfTwo(n2, n3, id2, id3);
    ConsDisplays(n1, n2, n3, id1, id2, id3);
    IdSetCons([n1, n2, n3], id1, {id2, id3});
  }

  /** Taking apart the displays of three names and three ids. Kept apart
      from `IdSetOfThree` for the solver: alone these equalities are cheap,
      next to the `ExtractId` facts they are costly to find. */
  lemma ConsDisplays(n1: string, n2: string, n3: string, id1: string, id2: string, id3: string)
    ensures [n1, n2, n3][1..] == [n2, n3]
    ensures {id1} + {id2, id3} == {id1, id2, id3}
  {
  }

  /** The ids of two names, in order. */
  lemma IdSetOfTwo(n1: string, n2: string, id1: string, id2: string)
    requires ExtractId(n1) == Ok(id1) && ExtractId(n2) == Ok(id2)
    ensures IdSet([n1, n2]) == Ok({id1, id2})
  {
    IdSetCons([n2], id2, {});
    assert {id2} + {} == {id2};
    IdSetCons([n1, n2], id1, {id2});
    assert {id1} + {id2} == {id1, id2};
  }

  /** Removing the outer two of three ids leaves the middle one (a separate
      lemma for the same reason as `ConsDisplays`). */
  lemma RemoveOuter(a: string, b: string, c: string)
    requires b != a && b != c
    ensures {a, b, c} - {a, c} == {b}
  {
  }

  /** Inputs job.001.in, job.002.in, job.003.in and outputs job.001.out,
      job.003.out (their ids as `JobId` gives them): default mode prints
      `job.002`, CSV mode prints `2`. */
  lemma OneJobMissing(in1: string, in2: string, in3: string, out1: string, out3: string)
    requires ExtractId(in1) == Ok("001") && ExtractId(in2) == Ok("002") && ExtractId(in3) == Ok("003")
    requires ExtractId(out1) == Ok("001") && ExtractId(out3) == Ok("003")
    ensures ReportSpec([in1, in2, in3], [out1, out3], "job", false) == Ok(["job.002"])
    ensures ReportSpec([in1, in2, in3], [out1, out3], "job", true) == Ok(["2"])
  {
    IdSetOfThree(in1, in2, in3, "001", "002", "003");
    IdSetOfTwo(out1, out3, "001", "003");
    MissingSetOf([in1, in2, in3], [out1, out3], {"001", "002", "003"}, {"001", "003"});
    assert "002"[2] != "001"[2] && "002"[2] != "003"[2];
    RemoveOuter("001", "002", "003");
    SortedSingle("002");
    ReportOf([in1, in2, in3], [out1, out3], {"002"}, ["002"], false);
    ReportOf([in1, in2, in3], [out1, out3], {"002"}, ["002"], true);
    RenderOne002();
  }

  /** The job ids of the five filenames of `OneJobMissing`, one lemma each. */
  lemma IdOfInput001()
    ensures ExtractId("job.001.in") == Ok("001")
  {
    JobId("job.001.in", "001", ".in");
  }

  lemma IdOfInput002()
    ensures ExtractId("job.002.in") == Ok("002")
  {
    JobId("job.002.in", "002", ".in");
  }

  lemma IdOfInput003()
    ensures ExtractId("job.003.in") == Ok("003")
  {
    JobId("job.003.in", "003", ".in");
  }

  lemma IdOfOutput001()
    ensures ExtractId("job.001.out") == Ok("001")
  {
    JobId("job.001.out", "001", ".out");
  }

  lemma IdOfOutput003()
    ensures ExtractId("job.003.out") == Ok("003")
  {
    JobId("job.003.out", "003", ".out");
  }

  /** The same run on the literal filenames. */
  lemma OneJobMissingByName()
    ensures ReportSpec(["job.001.in", "job.002.in", "job.003.in"], ["job.001.out", "job.003.out"], "job", false)
            == Ok(["job.002"])
    ensures ReportSpec(["job.001.in", "job.002.in", "job.003.in"], ["job.001.out", "job.003.out"], "job", true)
            == Ok(["2"])
  {
    IdOfInput001();
    IdOfInput002();
    IdOfInput003();
    IdOfOutput001();
    IdOfOutput003();
    OneJobMissing("job.001.in", "job.002.in", "job.003.in", "job.001.out", "job.003.out");
  }

  /** Input job.010.in and outputs job.010.out, job.020.out: every input job
      has its output (the extra one is ignored), so default mode prints
      nothing and CSV mode one empty line. */
  lemma NothingMissing(in1: string, out1: string, out2: string)
    requires ExtractId(in1) == Ok("010")
    requires ExtractId(out1) == Ok("010") && ExtractId(out2) == Ok("020")
    ensures ReportSpec([in1], [out1, out2], "job", false) == Ok([])
    ensures ReportSpec([in1], [out1, out2], "job", true) == Ok([""])
  {
    IdSetCons([in1], "010", {});
    assert {"010"} + {} == {"010"};
    IdSetOfTwo(out1, out2, "010", "020");
    MissingSetOf([in1], [out1, out2], {"010"}, {"010", "020"});
    assert {"010"} - {"010", "020"} == {};
    assert |SortedList({})| == 0;
    ReportOf([in1], [out1, out2], {}, [], false);
    ReportOf([in1], [out1, out2], {}, [], true);
    RenderNone();
  }

  /** An input whose name holds no '.' (such as `job` or `dir/job`) aborts
      the run, whatever the outputs. */
  lemma NameWithoutDotFails(name: string, outs: seq<string>, csvWanted: bool)
    requires '.' !in name
    ensures ReportSpec([name], outs, "job", csvWanted) == Err(MalformedName)
  {
    assert forall c :: c in Basename(name) ==> c in name;
    assert [name][1..] == [];
  }

  /** The ids 9 and 10 sort as strings: "10" first. */
  lemma SortedNineTen()
    ensures SortedList({"9", "10"}) == ["10", "9"]
  {
    StringOrderIsNotNumeric();
    var sorted := ["10", "9"];
    assert Sorted(sorted);
    assert multiset(sorted) == multiset({"9", "10"});
    SortedUnique(SortedList({"9", "10"}), sorted);
  }

  lemma LinesNineTen()
    ensures DefaultLines("job", ["10", "9"]) == ["job.10", "job.9"]
  {
    var lines := DefaultLines("job", ["10", "9"]);
    assert lines[0] == "job" + "." + "10" == "job.10";
    assert lines[1] == "job" + "." + "9" == "job.9";
  }

  /** Removing no id changes nothing (a separate lemma for the same reason
      as `ConsDisplays`). */
  lemma MinusNothing(ids: set<string>)
    ensures ids - {} == ids
  {
  }

  /** With no outputs, the ids of both inputs are missing. */
  lemma BothMissing(in1: string, in2: string, id1: string, id2: string)
    requires ExtractId(in1) == Ok(id1) && ExtractId(in2) == Ok(id2)
    ensures MissingSet([in1, in2], []) == Ok({id1, id2})
  {
    IdSetOfTwo(in1, in2, id1, id2);
    MissingSetOf([in1, in2], [], {id1, id2}, {});
    MinusNothing({id1, id2});
  }

  /** Inputs job.9.in and job.10.in, no outputs: ids sort as strings, so
      job 10 is reported before job 9. */
  lemma TenBeforeNine(in1: string, in2: string)
    requires ExtractId(in1) == Ok("9") && ExtractId(in2) == Ok("10")
    ensures ReportSpec([in1, in2], [], "job", false) == Ok(["job.10", "job.9"])
  {
    BothMissing(in1, in2, "9", "10");
    SortedNineTen();
    ReportOf([in1, in2], [], {"9", "10"}, ["10", "9"], false);
    LinesNineTen();
  }
}
