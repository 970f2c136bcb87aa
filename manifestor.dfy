/**
 * `fq_manifestor` as the Python function runs it: one loop that fills the
 * slot dictionary in place and raises at the first unusable file, a second
 * loop that appends one line per sample and raises at the first incomplete
 * sample, then the warning test and the text that would be written. Each
 * loop is a method of its own here; `FqManifestor` runs them in sequence.
 */
module Manifestor {
  import opened Wrappers
  import opened Text
  import opened Patterns
  import opened ManifestSpec

  /** The loop over `fq_extensions`: appends the paths found for each extension in turn. */
  method Discover(globbed: seq<seq<string>>) returns (found: seq<string>)
    ensures found == Flatten(globbed)
  {
    found := [];
    for i := 0 to |globbed|
      invariant found == Flatten(globbed[..i])
    {
      assert globbed[..i + 1][..i] == globbed[..i];
      found := found + globbed[i];
    }
    assert globbed[..|globbed|] == globbed;
  }

  /** The main loop: classifies each kept path and fills its sample's slot, keeping the
      dictionary's keys in first-discovery order; stops at the first file it cannot use. */
  method ScanReads(found: seq<string>, cfg: Config) returns (res: Result<Table>)
    ensures res == match ParseAll(found, cfg)
                   case Err(k, n) => Err(k, n)
                   case Ok(es) => Ok(Collect(es))
  {
    // sids_to_fps, as its keys in insertion order and its values
    var order: seq<string> := [];
    var slots: map<string, Slots> := map[];
    ghost var es: seq<Entry> := [];

    var i := 0;
    assert found[..i] == [];
    while i < |found|
      invariant 0 <= i <= |found|
      invariant ParseAll(found[..i], cfg) == Ok(es)
      invariant Table(order, slots) == Collect(es)
    {
      var path := found[i];
      var name := Basename(path);
      var fields := Split(name, cfg.splitOn);
      if |fields| == 1 {
        assert Parse(path, cfg) == Err(SampleIdNotFound, path);
        ParseAllStops(found, i, |found|, cfg);
        assert found[..|found|] == found;
        return Err(SampleIdNotFound, path);
      }
      var sid := fields[0];
      var forward: bool;
      if Search(cfg.forward, name) {
        forward := true;
      } else if Search(cfg.reverse, name) {
        forward := false;
      } else {
        assert Parse(path, cfg) == Err(PatternsNotFound, path);
        ParseAllStops(found, i, |found|, cfg);
        assert found[..|found|] == found;
        return Err(PatternsNotFound, path);
      }

      var sidFps := if sid in slots then slots[sid] else Slots(None, None);
      if forward {
        sidFps := sidFps.(fwd := Some(path));
      } else {
        sidFps := sidFps.(rev := Some(path));
      }
      if sid !in slots {
        order := order + [sid];
      }
      slots := slots[sid := sidFps];

      ghost var e := Entry(sid, if forward then Forward else Reverse, path);
      assert Parse(path, cfg) == Ok(e);
      ParseAllSnoc(found, i, es, e, cfg);
      assert (es + [e])[..|es|] == es;
      es, i := es + [e], i + 1;
      assert ParseAll(found[..i], cfg) == Ok(es);
    }
    assert found[..i] == found;
    res := Ok(Table(order, slots));
  }

  /** The second loop: the header, then one tab-separated line per sample in order;
      stops at the first sample whose forward, then reverse, slot is empty. */
  method ManifestLines(order: seq<string>, slots: map<string, Slots>) returns (res: Result<seq<string>>)
    requires forall s :: s in order ==> s in slots
    ensures res == match Rows(order, slots)
                   case Err(k, n) => Err(k, n)
                   case Ok(rows) => Ok(Lines(rows))
  {
    var lines := [Header];
    ghost var rows: seq<Row> := [];
    var j := 0;
    assert order[..j] == [];
    while j < |order|
      invariant 0 <= j <= |order|
      invariant Rows(order[..j], slots) == Ok(rows)
      invariant lines == Lines(rows)
    {
      var sid := order[j];
      var sidFps := slots[sid];
      if sidFps.fwd.None? {
        RowsStops(order, slots, j);
        return Err(MissingForward, sid);
      }
      if sidFps.rev.None? {
        RowsStops(order, slots, j);
        return Err(MissingReverse, sid);
      }
      var row := Row(sid, sidFps.fwd.value, sidFps.rev.value);
      RowsSnoc(order, slots, j, rows);
      assert (rows + [row])[..|rows|] == rows;
      lines := lines + [sid + "\t" + sidFps.fwd.value + "\t" + sidFps.rev.value];
      rows := rows + [row];
      j := j + 1;
    }
    assert order[..j] == order;
    res := Ok(lines);
  }

  /** Builds the manifest from the paths found for each extension, in the order the directory
      search enumerated them. `out` is the text written to the output file, or the error raised
      instead of writing; `warned` says whether the record-count warning is printed. */
  method FqManifestor(globbed: seq<seq<string>>, cfg: Config) returns (out: Result<string>, warned: bool)
    ensures out == Manifest(Flatten(globbed), cfg)
    ensures warned == Warns(Flatten(globbed), cfg)
  {
    var paths := Discover(globbed);
    var found := Filter(paths, cfg.filter);
    var n := |found|;
    var scanned := ScanReads(found, cfg);
    if scanned.Err? {
      return Err(scanned.kind, scanned.name), false;
    }
    var t := scanned.value;
    var rendered := ManifestLines(t.order, t.slots);
    if rendered.Err? {
      return Err(rendered.kind, rendered.name), false;
    }
    var lines := rendered.value;
    // (len(lines) - 1) != (n_fq_filepaths / 2) and verbose, on exact numbers
    warned := 2 * (|lines| - 1) != n && cfg.verbose;
    out := Ok(Join(lines, '\n') + "\n");
  }
}
