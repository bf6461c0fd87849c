/** The per-image loop of `processRoutes`: each eligible image gets the
    reference coordinates written into its GPS directory, is validated at
    once, and its location lands in one of three lists. */
module RouteLoop {
  import opened Results
  import opened GpsTags
  import opened Validation
  import opened FileNames

  /** An image of the route folder: its file name and its GPS directory. */
  datatype ImageFile = ImageFile(name: string, gps: GpsBlock)

  /** The reference table, keyed by the `Location` column as written. */
  type RefTable = map<string, RefEntry>

  /** The `success`, `failure` and `missing` lists of locations. */
  datatype Lists = Lists(success: seq<string>, failure: seq<string>, missing: seq<string>)

  /** The three independent `if validationStatus == ...` appends: the code
      1, -1 or 0 sends the location to the list of its outcome, and to no
      other. */
  function Tally(l: Lists, status: Outcome, location: string): (r: Lists)
    ensures r.success == l.success + (if status == Match then [location] else [])
    ensures r.failure == l.failure + (if status == Mismatch then [location] else [])
    ensures r.missing == l.missing + (if status == Missing then [location] else [])
  {
    Lists(l.success + (if status.Code() == 1 then [location] else []),
          l.failure + (if status.Code() == -1 then [location] else []),
          l.missing + (if status.Code() == 0 then [location] else []))
  }

  datatype RouteReport = RouteReport(lists: Lists, imageCount: nat)

  /** Every eligible file's upper-cased key has a row in the table. */
  predicate KeysKnown(files: seq<ImageFile>, table: RefTable)
  {
    forall i :: 0 <= i < |files| && Eligible(files[i].name) ==> LookupKey(files[i].name) in table
  }

  /** The index of the first eligible file whose key has no row, where the
      loop raises `KeyError`; `|files|` when there is none. */
  function FirstUnknown(files: seq<ImageFile>, table: RefTable): (k: nat)
    ensures k <= |files|
    ensures KeysKnown(files[..k], table)
    ensures k < |files| ==> Eligible(files[k].name) && LookupKey(files[k].name) !in table
    ensures k == |files| <==> KeysKnown(files, table)
  {
    if |files| == 0 then 0
    else
      var init, last := files[..|files| - 1], files[|files| - 1];
      var k := FirstUnknown(init, table);
      assert files[..|init|] == init;
      if k < |init| then
        assert files[..k] == init[..k];
        k
      else if Eligible(last.name) && LookupKey(last.name) !in table then
        |init|
      else
        assert files[..|files|] == files;
        assert forall i :: 0 <= i < |init| ==> files[i] == init[i];
        |files|
  }

  /** A known prefix followed by an unknown key pins the first failure. */
  lemma {:induction false} FirstUnknownAt(files: seq<ImageFile>, table: RefTable, i: nat)
    requires i < |files|
    requires KeysKnown(files[..i], table)
    requires Eligible(files[i].name) && LookupKey(files[i].name) !in table
    ensures FirstUnknown(files, table) == i
  {
    var init := files[..|files| - 1];
    if i < |init| {
      assert init[..i] == files[..i];
      FirstUnknownAt(init, table, i);
    } else {
      assert init == files[..i];
    }
  }

  /** The folder as the loop leaves it when it stops at index `k`: the
      images before `k` rewritten, the rest untouched. */
  lemma FolderLeft(files: seq<ImageFile>, table: RefTable, images: seq<ImageFile>, k: nat)
    requires k == FirstUnknown(files, table)
    requires |images| == k
    requires forall j :: 0 <= j < k ==> images[j] == AfterRoute(files[j], table)
    ensures |images + files[k..]| == |files|
    ensures forall i :: 0 <= i < |files| ==>
      (images + files[k..])[i] == if i < k then AfterRoute(files[i], table) else files[i]
  {
  }

  /** The first failure of a prefix is the first failure of the whole list. */
  lemma FirstUnknownPrefix(files: seq<ImageFile>, table: RefTable, n: nat)
    requires n <= |files|
    requires FirstUnknown(files[..n], table) < n
    ensures FirstUnknown(files, table) == FirstUnknown(files[..n], table)
  {
    var k := FirstUnknown(files[..n], table);
    assert files[..n][..k] == files[..k];
    FirstUnknownAt(files, table, k);
  }

  function CountEligible(files: seq<ImageFile>): nat
  {
    if |files| == 0 then 0
    else CountEligible(files[..|files| - 1]) + (if Eligible(files[|files| - 1].name) then 1 else 0)
  }

  /** Reference definition of one result list: in file order, the location of
      every eligible file whose entry has outcome `o` once written. */
  function Routed(files: seq<ImageFile>, table: RefTable, o: Outcome): seq<string>
    requires KeysKnown(files, table)
  {
    if |files| == 0 then []
    else
      var last := files[|files| - 1];
      Routed(files[..|files| - 1], table, o)
      + (if Eligible(last.name) && ExpectedOutcome(table[LookupKey(last.name)]) == o
         then [LocationKey(last.name)] else [])
  }

  /** The image as the loop leaves it: rewritten when eligible. */
  function AfterRoute(f: ImageFile, table: RefTable): ImageFile
    requires Eligible(f.name) ==> LookupKey(f.name) in table
  {
    if Eligible(f.name) then ImageFile(f.name, SetGps(f.gps, table[LookupKey(f.name)])) else f
  }

  /** The eligible images, rewritten, in file order. */
  function Rewritten(files: seq<ImageFile>, table: RefTable): seq<ImageFile>
    requires KeysKnown(files, table)
  {
    if |files| == 0 then []
    else
      var last := files[|files| - 1];
      Rewritten(files[..|files| - 1], table) + (if Eligible(last.name) then [AfterRoute(last, table)] else [])
  }

  /** Each eligible file is counted in exactly one list. */
  lemma {:induction false} RoutedPartition(files: seq<ImageFile>, table: RefTable)
    requires KeysKnown(files, table)
    ensures |Routed(files, table, Match)| + |Routed(files, table, Mismatch)|
            + |Routed(files, table, Missing)| == CountEligible(files)
  {
    if |files| > 0 {
      RoutedPartition(files[..|files| - 1], table);
    }
  }

  /** What the loop has built after the first `i` files: their keys are
      known, the lists and the count cover them, and they are rewritten. */
  predicate Progress(files: seq<ImageFile>, table: RefTable, i: nat,
                     lists: Lists, imageCount: nat, images: seq<ImageFile>)
    requires i <= |files|
  {
    && KeysKnown(files[..i], table)
    && lists == Lists(Routed(files[..i], table, Match), Routed(files[..i], table, Mismatch),
                      Routed(files[..i], table, Missing))
    && imageCount == CountEligible(files[..i])
    && |images| == i
    && forall j :: 0 <= j < i ==> images[j] == AfterRoute(files[j], table)
  }

  /** One more file with a known key: its location goes to the list of its
      expected outcome, the count grows when it is eligible, and it is
      appended rewritten. */
  lemma ProgressStep(files: seq<ImageFile>, table: RefTable, i: nat,
                     lists: Lists, imageCount: nat, images: seq<ImageFile>)
    requires i < |files|
    requires Progress(files, table, i, lists, imageCount, images)
    requires Eligible(files[i].name) ==> LookupKey(files[i].name) in table
    ensures Eligible(files[i].name) ==>
      Progress(files, table, i + 1,
               Tally(lists, ExpectedOutcome(table[LookupKey(files[i].name)]), LocationKey(files[i].name)),
               imageCount + 1, images + [AfterRoute(files[i], table)])
    ensures !Eligible(files[i].name) ==>
      Progress(files, table, i + 1, lists, imageCount, images + [AfterRoute(files[i], table)])
  {
    RouteStep(files, table, i);
    var next := files[..i + 1];
    var f := files[i];
    var image := AfterRoute(f, table);
    assert forall j :: 0 <= j < i ==> (images + [image])[j] == images[j];
    if Eligible(f.name) {
      var o := ExpectedOutcome(table[LookupKey(f.name)]);
      var t := Tally(lists, o, LocationKey(f.name));
      assert t.success == Routed(next, table, Match);
      assert t.failure == Routed(next, table, Mismatch);
      assert t.missing == Routed(next, table, Missing);
    }
  }

  /** How the reference lists and the count grow by one file. */
  lemma RouteStep(files: seq<ImageFile>, table: RefTable, i: nat)
    requires i < |files|
    requires KeysKnown(files[..i], table)
    requires Eligible(files[i].name) ==> LookupKey(files[i].name) in table
    ensures KeysKnown(files[..i + 1], table)
    ensures forall o :: (Routed(files[..i + 1], table, o) == Routed(files[..i], table, o)
      + (if Eligible(files[i].name) && ExpectedOutcome(table[LookupKey(files[i].name)]) == o
         then [LocationKey(files[i].name)] else []))
    ensures CountEligible(files[..i + 1])
            == CountEligible(files[..i]) + (if Eligible(files[i].name) then 1 else 0)
  {
    assert files[..i + 1][..i] == files[..i];
  }

  /** The loop over the folder's file list. Each eligible image is
      rewritten in place before the next file is looked at, so when a key
      missing from the table raises `KeyError` the images before it stay
      rewritten. `folder` is the folder as the loop leaves it. */
  method ProcessRoute(files: seq<ImageFile>, table: RefTable) returns (r: Result<RouteReport>, folder: seq<ImageFile>)
    ensures r.Ok? <==> KeysKnown(files, table)
    ensures r.Err? ==>
      var k := FirstUnknown(files, table);
      k < |files| && r.error == LookupMiss(LookupKey(files[k].name))
    ensures r.Ok? ==>
      r.value.lists == Lists(Routed(files, table, Match), Routed(files, table, Mismatch), Routed(files, table, Missing))
    ensures r.Ok? ==> r.value.imageCount == CountEligible(files)
    ensures |folder| == |files|
    ensures forall i :: 0 <= i < |files| ==>
      folder[i] == if i < FirstUnknown(files, table) then AfterRoute(files[i], table) else files[i]
  {
    var lists := Lists([], [], []);
    var imageCount := 0;
    var images := [];
    var i := 0;
    while i < |files|
      invariant 0 <= i <= |files|
      invariant Progress(files, table, i, lists, imageCount, images)
    {
      var file := files[i];
      if Eligible(file.name) {
        var location := LocationKey(file.name);
        var key := Upper(location);
        if key !in table {
          FirstUnknownAt(files, table, i);
          FolderLeft(files, table, images, i);
          folder := images + files[i..];
          r := Err(LookupMiss(key));
          return;
        }
        ProgressStep(files, table, i, lists, imageCount, images);
        var entry := table[key];
        var written := SetGps(file.gps, entry);
        assert key == LookupKey(file.name);
        assert AfterRoute(file, table) == ImageFile(file.name, written);
        images := images + [ImageFile(file.name, written)];
        imageCount := imageCount + 1;
        // Validating what was just written never raises.
        WriteThenValidate(file.gps, entry);
        var status := ValidateGps(entry, written).value;
        lists := Tally(lists, status, location);
      } else {
        ProgressStep(files, table, i, lists, imageCount, images);
        assert AfterRoute(file, table) == file;
        images := images + [file];
      }
      i := i + 1;
    }
    assert files[..i] == files;
    FolderLeft(files, table, images, i);
    folder := images + files[i..];
    r := Ok(RouteReport(lists, imageCount));
  }
}
