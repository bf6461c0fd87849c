/** The loop of the validation script's `main`: every `.jpg` whose name
    starts with `i` is looked up by its first three characters and its
    coordinates compared, quantized, with the reference. */
module ValidateLoop {
  import opened Results
  import opened GpsTags
  import opened Validation
  import opened FileNames
  import opened RouteLoop

  /** The two comparisons printed for one file. */
  datatype FileCheck = FileCheck(name: string, comparison: Comparison)

  /** Reference definition: the files the script validates, in order. */
  function ValidatedFiles(files: seq<ImageFile>): (v: seq<ImageFile>)
  {
    if |files| == 0 then []
    else
      var last := files[|files| - 1];
      ValidatedFiles(files[..|files| - 1]) + (if ValidateEligible(last.name) then [last] else [])
  }

  /** One iteration: a skipped file changes nothing; a validated one raises
      when its key has no row, when a reference cell is empty or when its
      image cannot be read, and otherwise adds its check at the end. */
  function ValidateStep(checks: seq<FileCheck>, file: ImageFile, table: RefTable): (r: Result<seq<FileCheck>>)
    ensures !ValidateEligible(file.name) ==> r == Ok(checks)
    ensures ValidateEligible(file.name) ==>
      (r.Ok? <==> ValidateKey(file.name) in table
                  && ValidateQuantized(table[ValidateKey(file.name)], file.gps).Ok?)
    ensures ValidateEligible(file.name) && ValidateKey(file.name) !in table ==>
      r == Err(LookupMiss(ValidateKey(file.name)))
    ensures r.Ok? && ValidateEligible(file.name) ==>
      && HasCoordinates(table[ValidateKey(file.name)])
      && |r.value| == |checks| + 1 && r.value[..|checks|] == checks
      && r.value[|checks|].name == file.name
  {
    if !ValidateEligible(file.name) then
      Ok(checks)
    else
      var key := ValidateKey(file.name);
      if key !in table then
        Err(LookupMiss(key))
      else
        var comparison :- ValidateQuantized(table[key], file.gps);
        assert (checks + [FileCheck(file.name, comparison)])[..|checks|] == checks;
        Ok(checks + [FileCheck(file.name, comparison)])
  }

  /** The loop over the output folder; the first exception ends it. A
      completed run found every validated file's key, in a row with both
      cells filled. */
  function ValidateRun(files: seq<ImageFile>, table: RefTable): (r: Result<seq<FileCheck>>)
    ensures r.Ok? ==> forall i :: 0 <= i < |files| && ValidateEligible(files[i].name) ==>
      ValidateKey(files[i].name) in table && HasCoordinates(table[ValidateKey(files[i].name)])
  {
    if |files| == 0 then
      Ok([])
    else
      var init := files[..|files| - 1];
      var checks :- ValidateRun(init, table);
      assert forall i :: 0 <= i < |init| ==> init[i] == files[i];
      ValidateStep(checks, files[|files| - 1], table)
  }

  /** A completed run reports exactly one check per validated file, in
      order, carrying that file's quantized comparison against its table
      row. */
  lemma {:induction false} ValidateRunCovers(files: seq<ImageFile>, table: RefTable)
    requires ValidateRun(files, table).Ok?
    ensures var checks, vf := ValidateRun(files, table).value, ValidatedFiles(files);
      && |checks| == |vf|
      && forall k :: 0 <= k < |checks| ==>
        && checks[k].name == vf[k].name
        && ValidateKey(vf[k].name) in table
        && ValidateQuantized(table[ValidateKey(vf[k].name)], vf[k].gps) == Ok(checks[k].comparison)
  {
    if |files| > 0 {
      var init, last := files[..|files| - 1], files[|files| - 1];
      ValidateRunCovers(init, table);
      var checks0 := ValidateRun(init, table).value;
      assert ValidateRun(files, table) == ValidateStep(checks0, last, table);
      if ValidateEligible(last.name) {
        var key := ValidateKey(last.name);
        assert key in table;
        var c := ValidateQuantized(table[key], last.gps);
        assert c.Ok?;
        assert ValidateRun(files, table).value == checks0 + [FileCheck(last.name, c.value)];
        assert ValidatedFiles(files) == ValidatedFiles(init) + [last];
      }
    }
  }
}
