/** The per-image loop of the single-folder script `main`: in validate mode
    each eligible image is classified from the coordinates it already holds;
    otherwise the reference is written into it, and the result handed on for
    saving only when the write switch is on. */
module TestLoop {
  import opened Results
  import opened GpsTags
  import opened Validation
  import opened FileNames
  import opened RouteLoop

  /** The `--validate` switch and the `writeFlag` set by `--write`. */
  datatype Mode = Mode(validate: bool, writeFlag: int)

  datatype TestReport = TestReport(lists: Lists, imageCount: nat, written: seq<ImageFile>)

  /** One iteration of the loop: a skipped file changes nothing; an eligible
      one raises when its key has no row (or, in validate mode, when its
      image cannot be read), and is otherwise counted and either tallied or
      rewritten. */
  function TestStep(rep: TestReport, file: ImageFile, table: RefTable, mode: Mode): (r: Result<TestReport>)
    ensures !Eligible(file.name) ==> r == Ok(rep)
    ensures Eligible(file.name) ==>
      (r.Ok? <==> LookupKey(file.name) in table
                  && (mode.validate ==> ValidateGps(table[LookupKey(file.name)], file.gps).Ok?))
    ensures Eligible(file.name) && LookupKey(file.name) !in table ==>
      r == Err(LookupMiss(LookupKey(file.name)))
    ensures r.Ok? && Eligible(file.name) ==> r.value.imageCount == rep.imageCount + 1
    ensures r.Ok? && !mode.validate ==> r.value.lists == rep.lists
    ensures r.Ok? && mode.validate ==> r.value.written == rep.written
  {
    if !Eligible(file.name) then
      Ok(rep)
    else
      var location := LocationKey(file.name);
      var key := Upper(location);
      if key !in table then
        Err(LookupMiss(key))
      else if mode.validate then
        var status :- ValidateGps(table[key], file.gps);
        Ok(rep.(lists := Tally(rep.lists, status, location), imageCount := rep.imageCount + 1))
      else
        var saved := SetGpsGated(file.gps, table[key], mode.writeFlag);
        Ok(rep.(imageCount := rep.imageCount + 1,
                written := rep.written + (if saved.Some? then [ImageFile(file.name, saved.value)] else [])))
  }

  /** The loop over the folder's file list; the first exception ends it. A
      completed run found every key and counted every eligible file. */
  function TestRun(files: seq<ImageFile>, table: RefTable, mode: Mode): (r: Result<TestReport>)
    ensures r.Ok? ==> KeysKnown(files, table) && r.value.imageCount == CountEligible(files)
  {
    if |files| == 0 then
      Ok(TestReport(Lists([], [], []), 0, []))
    else
      var init := files[..|files| - 1];
      var rep :- TestRun(init, table, mode);
      assert forall i :: 0 <= i < |init| ==> init[i] == files[i];
      TestStep(rep, files[|files| - 1], table, mode)
  }

  /** Reference definition of one list in validate mode: in file order, the
      location of every eligible file whose image validates to `o`. */
  function Classified(files: seq<ImageFile>, table: RefTable, o: Outcome): seq<string>
    requires KeysKnown(files, table)
  {
    if |files| == 0 then []
    else
      var last := files[|files| - 1];
      Classified(files[..|files| - 1], table, o)
      + (if Eligible(last.name) && ValidateGps(table[LookupKey(last.name)], last.gps) == Ok(o)
         then [LocationKey(last.name)] else [])
  }

  /** In validate mode each eligible file lands in exactly one list;
      otherwise the lists stay empty, and images are handed on for saving,
      one per eligible file, only when `writeFlag == 1`. */
  lemma {:induction false} TestRunCounts(files: seq<ImageFile>, table: RefTable, mode: Mode)
    requires TestRun(files, table, mode).Ok?
    ensures var rep := TestRun(files, table, mode).value;
      && (mode.validate ==> |rep.lists.success| + |rep.lists.failure| + |rep.lists.missing| == rep.imageCount)
      && (!mode.validate ==> rep.lists == Lists([], [], []))
      && |rep.written| == (if !mode.validate && mode.writeFlag == 1 then CountEligible(files) else 0)
  {
    if |files| > 0 {
      TestRunCounts(files[..|files| - 1], table, mode);
    }
  }

  /** Outside validate mode the run fails exactly when some eligible file's
      key is missing from the table, and then with that lookup error. */
  lemma {:induction false} TestRunFailures(files: seq<ImageFile>, table: RefTable, mode: Mode)
    requires !mode.validate
    ensures TestRun(files, table, mode).Ok? <==> KeysKnown(files, table)
    ensures TestRun(files, table, mode).Err? ==> TestRun(files, table, mode).error.LookupMiss?
  {
    if |files| > 0 {
      var init := files[..|files| - 1];
      TestRunFailures(init, table, mode);
      assert forall i :: 0 <= i < |init| ==> init[i] == files[i];
    }
  }

  /** In write mode the images handed on are exactly the route loop's
      rewritten images. */
  lemma {:induction false} TestRunWrites(files: seq<ImageFile>, table: RefTable, mode: Mode)
    requires !mode.validate && mode.writeFlag == 1
    requires TestRun(files, table, mode).Ok?
    ensures KeysKnown(files, table)
    ensures TestRun(files, table, mode).value.written == Rewritten(files, table)
  {
    if |files| > 0 {
      TestRunWrites(files[..|files| - 1], table, mode);
    }
  }

  /** Outside validate mode a failing run stops at the first eligible file
      whose key has no row, raising for that key, after the files before it
      were handled: in write mode those images are already rewritten in
      place. */
  lemma {:induction false} TestRunStops(files: seq<ImageFile>, table: RefTable, mode: Mode)
    requires !mode.validate
    requires TestRun(files, table, mode).Err?
    ensures var k := FirstUnknown(files, table);
      && k < |files|
      && TestRun(files, table, mode).error == LookupMiss(LookupKey(files[k].name))
      && TestRun(files[..k], table, mode).Ok?
      && (mode.writeFlag == 1 ==> TestRun(files[..k], table, mode).value.written == Rewritten(files[..k], table))
  {
    TestRunFailures(files, table, mode);
    var init, last := files[..|files| - 1], files[|files| - 1];
    assert files[..|init|] == init;
    if TestRun(init, table, mode).Err? {
      TestRunStops(init, table, mode);
      var k := FirstUnknown(init, table);
      FirstUnknownPrefix(files, table, |init|);
      assert files[..k] == init[..k];
    } else {
      FirstUnknownAt(files, table, |init|);
      if mode.writeFlag == 1 {
        TestRunWrites(init, table, mode);
      }
    }
  }

  /** In validate mode each list holds exactly the locations whose images
      validate to its outcome. */
  lemma {:induction false} TestRunClassifies(files: seq<ImageFile>, table: RefTable, mode: Mode)
    requires mode.validate
    requires TestRun(files, table, mode).Ok?
    ensures KeysKnown(files, table)
    ensures TestRun(files, table, mode).value.lists
            == Lists(Classified(files, table, Match), Classified(files, table, Mismatch),
                     Classified(files, table, Missing))
  {
    if |files| > 0 {
      TestRunClassifies(files[..|files| - 1], table, mode);
    }
  }
}
