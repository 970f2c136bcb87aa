/**
 * The manifest builder `fq_manifestor` as specification functions: each
 * step of the Python function (filter, sample id, direction, slot table,
 * completeness check, rendering) is one function here, and the imperative
 * method in module Manifestor is proved to compute exactly `Manifest`.
 */
module ManifestSpec {
  import opened Wrappers
  import opened Text
  import opened Patterns

  datatype Direction = Forward | Reverse

  /** The four `ValueError`s the builder raises; `name` is the file path or the sample id. */
  datatype ErrorKind =
    | SampleIdNotFound   // 'Sample ID not found in file: <path>'
    | PatternsNotFound   // 'Forward/reverse patterns not found in file: <path>'
    | MissingForward     // 'Missing forward read for sample: <sid>'
    | MissingReverse     // 'Missing reverse read for sample: <sid>'

  datatype Result<T> = Ok(value: T) | Err(kind: ErrorKind, name: string)

  /** The keyword arguments of `fq_manifestor` that shape the result. */
  datatype Config = Config(
    splitOn: char,            // split_pattern, a one-character literal
    forward: Pattern,         // f_read_pattern
    reverse: Pattern,         // r_read_pattern
    filter: Option<string>,   // filter_pattern
    verbose: bool)

  /** split_pattern='_', f_read_pattern='_1.', r_read_pattern='_2.', filter_pattern=None, verbose=True */
  const Defaults: Config := Config('_', ForwardDefault, ReverseDefault, None, true)

  /** One classified read file. */
  datatype Entry = Entry(sid: string, dir: Direction, path: string)

  /** The `[forward, reverse]` list kept per sample. */
  datatype Slots = Slots(fwd: Option<string>, rev: Option<string>)

  /** The dictionary `sids_to_fps`: its keys in insertion order and its values. */
  datatype Table = Table(order: seq<string>, slots: map<string, Slots>)

  /** One data line of the manifest. */
  datatype Row = Row(sid: string, fwd: string, rev: string)

  const Header: string := "sample-id" + "\t" + "forward-absolute-filepath" + "\t" + "reverse-absolute-filepath"

  /** `fq_filepaths` after the loop over the extensions: the paths found for each extension,
      one extension after the other. */
  function Flatten(globbed: seq<seq<string>>): seq<string> {
    if globbed == [] then []
    else Flatten(globbed[..|globbed| - 1]) + globbed[|globbed| - 1]
  }

  /** The comprehension that keeps the paths containing `filter_pattern`. */
  function Filter(paths: seq<string>, filter: Option<string>): (kept: seq<string>)
    ensures filter.None? ==> kept == paths
    ensures filter.Some? ==> forall p :: p in kept <==> p in paths && IsSubstring(filter.value, p)
  {
    match filter
    case None => paths
    case Some(f) =>
      if paths == [] then []
      else (if IsSubstring(f, paths[0]) then [paths[0]] else []) + Filter(paths[1..], filter)
  }

  /** The body of the main loop up to the slot update: the sample id is the first field of the
      base name split on `splitOn`, and the forward pattern is tried before the reverse one. */
  function Parse(path: string, cfg: Config): Result<Entry>
  {
    var name := Basename(path);
    var fields := Split(name, cfg.splitOn);
    if |fields| == 1 then Err(SampleIdNotFound, path)
    else
      var sid := fields[0];
      if Search(cfg.forward, name) then Ok(Entry(sid, Forward, path))
      else if Search(cfg.reverse, name) then Ok(Entry(sid, Reverse, path))
      else Err(PatternsNotFound, path)
  }

  /** All values when every result is `Ok`, otherwise the first error. */
  function Gather<T>(rs: seq<Result<T>>): (r: Result<seq<T>>)
    ensures r.Ok? ==> |r.value| == |rs| && forall i :: 0 <= i < |rs| ==> rs[i] == Ok(r.value[i])
    ensures r.Err? ==> exists i :: 0 <= i < |rs| && rs[i] == Err(r.kind, r.name)
                                   && forall j :: 0 <= j < i ==> rs[j].Ok?
  {
    if rs == [] then Ok([])
    else
      match Gather(rs[..|rs| - 1])
      case Err(k, n) => Err(k, n)
      case Ok(vs) =>
        match rs[|rs| - 1]
        case Err(k, n) => Err(k, n)
        case Ok(v) => Ok(vs + [v])
  }

  /** Appending an `Ok` to an all-`Ok` list appends its value. */
  lemma GatherSnoc<T>(rs: seq<Result<T>>, vs: seq<T>, v: T)
    requires Gather(rs) == Ok(vs)
    ensures Gather(rs + [Ok(v)]) == Ok(vs + [v])
  {
    assert (rs + [Ok(v)])[..|rs|] == rs;
  }

  /** An error after an all-`Ok` list is the result. */
  lemma GatherErrLast<T>(rs: seq<Result<T>>, x: Result<T>)
    requires Gather(rs).Ok? && x.Err?
    ensures Gather(rs + [x]) == Err(x.kind, x.name)
  {
    assert (rs + [x])[..|rs|] == rs;
  }

  /** Nothing appended after an error changes the result. */
  lemma GatherErrSnoc<T>(rs: seq<Result<T>>, x: Result<T>)
    requires Gather(rs).Err?
    ensures Gather(rs + [x]) == Gather(rs)
  {
    assert (rs + [x])[..|rs|] == rs;
  }

  /** An error after an all-`Ok` prefix is the result, whatever follows it. */
  lemma {:induction false} GatherStops<T>(rs: seq<Result<T>>, i: int)
    requires 0 <= i < |rs| && Gather(rs[..i]).Ok? && rs[i].Err?
    ensures Gather(rs) == Err(rs[i].kind, rs[i].name)
    decreases |rs|
  {
    var init := rs[..|rs| - 1];
    assert rs == init + [rs[|rs| - 1]];
    if i == |rs| - 1 {
      GatherErrLast(init, rs[i]);
    } else {
      assert init[..i] == rs[..i];
      GatherStops(init, i);
      GatherErrSnoc(init, rs[|rs| - 1]);
    }
  }

  /** The result of the main loop's body for each path, in order. */
  function Parsed(paths: seq<string>, cfg: Config): (rs: seq<Result<Entry>>)
    ensures |rs| == |paths|
  {
    if paths == [] then []
    else Parsed(paths[..|paths| - 1], cfg) + [Parse(paths[|paths| - 1], cfg)]
  }

  /** Parsing a prefix one path longer adds that path's result. */
  lemma ParsedSnoc(paths: seq<string>, i: int, cfg: Config)
    requires 0 <= i < |paths|
    ensures Parsed(paths[..i + 1], cfg) == Parsed(paths[..i], cfg) + [Parse(paths[i], cfg)]
  {
    assert paths[..i + 1][..i] == paths[..i];
  }

  /** A path that parses extends the entries of the prefix before it. */
  lemma ParseAllSnoc(paths: seq<string>, i: int, es: seq<Entry>, e: Entry, cfg: Config)
    requires 0 <= i < |paths|
    requires ParseAll(paths[..i], cfg) == Ok(es) && Parse(paths[i], cfg) == Ok(e)
    ensures ParseAll(paths[..i + 1], cfg) == Ok(es + [e])
  {
    ParsedSnoc(paths, i, cfg);
    GatherSnoc(Parsed(paths[..i], cfg), es, e);
  }

  /** The first path that fails to parse decides the outcome of the whole loop. */
  lemma ParseAllStops(paths: seq<string>, i: int, k: int, cfg: Config)
    requires 0 <= i < k <= |paths|
    requires ParseAll(paths[..i], cfg).Ok? && Parse(paths[i], cfg).Err?
    ensures ParseAll(paths[..k], cfg) == Err(Parse(paths[i], cfg).kind, Parse(paths[i], cfg).name)
  {
    var rs := Parsed(paths[..k], cfg);
    assert paths[..k][..i + 1] == paths[..i + 1];
    ParsedPrefix(paths[..k], i + 1, cfg);
    ParsedSnoc(paths, i, cfg);
    var pre, x := Parsed(paths[..i], cfg), Parse(paths[i], cfg);
    assert rs[..i + 1] == pre + [x];
    assert rs[..i] == pre && rs[i] == x;
    GatherStops(rs, i);
  }

  /** Parsing a prefix gives the prefix of the results. */
  lemma {:induction false} ParsedPrefix(paths: seq<string>, i: int, cfg: Config)
    requires 0 <= i <= |paths|
    ensures Parsed(paths[..i], cfg) == Parsed(paths, cfg)[..i]
    decreases |paths|
  {
    if i < |paths| {
      var init := paths[..|paths| - 1];
      assert paths[..i] == init[..i];
      ParsedPrefix(init, i, cfg);
    } else {
      assert paths[..i] == paths;
    }
  }

  /** The main loop's parsing: every path in order, stopping at the first that fails. */
  function ParseAll(paths: seq<string>, cfg: Config): Result<seq<Entry>>
  {
    Gather(Parsed(paths, cfg))
  }

  predicate NoDup(s: seq<string>) {
    forall i, j :: 0 <= i < j < |s| ==> s[i] != s[j]
  }

  /** The dictionary's invariant: each key once in the insertion order, and nothing else there. */
  ghost predicate WellFormed(t: Table) {
    NoDup(t.order) && forall s :: s in t.slots <==> s in t.order
  }

  /** The slot pair a sample has before an assignment: `[None, None]` when it is new. */
  function Prior(t: Table, sid: string): Slots {
    if sid in t.slots then t.slots[sid] else Slots(None, None)
  }

  /** One iteration of the main loop after classification: fill one slot of one sample. */
  function Assign(t: Table, e: Entry): (r: Table)
    ensures r.slots.Keys == t.slots.Keys + {e.sid}
    ensures forall s :: s in t.slots && s != e.sid ==> r.slots[s] == t.slots[s]
    ensures e.dir == Forward ==> r.slots[e.sid] == Slots(Some(e.path), Prior(t, e.sid).rev)
    ensures e.dir == Reverse ==> r.slots[e.sid] == Slots(Prior(t, e.sid).fwd, Some(e.path))
    ensures r.order == if e.sid in t.slots then t.order else t.order + [e.sid]
    ensures WellFormed(t) ==> WellFormed(r)
  {
    var before := Prior(t, e.sid);
    var after := if e.dir == Forward then before.(fwd := Some(e.path)) else before.(rev := Some(e.path));
    Table(if e.sid in t.slots then t.order else t.order + [e.sid], t.slots[e.sid := after])
  }

  /** The slot table after the main loop has seen all entries. */
  function Collect(es: seq<Entry>): (t: Table)
    ensures WellFormed(t)
  {
    if es == [] then Table([], map[])
    else Assign(Collect(es[..|es| - 1]), es[|es| - 1])
  }

  predicate Complete(s: Slots) {
    s.fwd.Some? && s.rev.Some?
  }

  /** `order[i]` is the first sample in `order` whose slot pair is not complete. */
  predicate FirstIncomplete(order: seq<string>, slots: map<string, Slots>, i: int)
    requires forall s :: s in order ==> s in slots
  {
    0 <= i < |order| && !Complete(slots[order[i]])
    && forall j :: 0 <= j < i ==> Complete(slots[order[j]])
  }

  /** The second loop: one row per sample in order, or the first missing read. */
  function Rows(order: seq<string>, slots: map<string, Slots>): (r: Result<seq<Row>>)
    requires forall s :: s in order ==> s in slots
    ensures r.Ok? <==> forall i :: 0 <= i < |order| ==> Complete(slots[order[i]])
    ensures r.Ok? ==> |r.value| == |order| && forall i :: 0 <= i < |order| ==>
              r.value[i] == Row(order[i], slots[order[i]].fwd.value, slots[order[i]].rev.value)
    ensures r.Err? ==> exists i :: (FirstIncomplete(order, slots, i) && r.name == order[i]
              && r.kind == if slots[order[i]].fwd.None? then MissingForward else MissingReverse)
  {
    if order == [] then Ok([])
    else
      var init, sid := order[..|order| - 1], order[|order| - 1];
      assert forall i :: 0 <= i < |init| ==> init[i] == order[i];
      match Rows(init, slots)
      case Err(k, n) => Err(k, n)
      case Ok(rs) =>
        var s := slots[sid];
        if s.fwd.None? then Err(MissingForward, sid)
        else if s.rev.None? then Err(MissingReverse, sid)
        else Ok(rs + [Row(sid, s.fwd.value, s.rev.value)])
  }

  /** Once a prefix is complete, the first incomplete sample after it gives the error. */
  lemma RowsStops(order: seq<string>, slots: map<string, Slots>, i: int)
    requires forall s :: s in order ==> s in slots
    requires 0 <= i < |order| && Rows(order[..i], slots).Ok? && !Complete(slots[order[i]])
    ensures Rows(order, slots) ==
              Err(if slots[order[i]].fwd.None? then MissingForward else MissingReverse, order[i])
  {
    var r := Rows(order, slots);
    assert forall j :: 0 <= j < i ==> order[j] == order[..i][j];
    var i0 :| FirstIncomplete(order, slots, i0) && r.name == order[i0]
              && r.kind == if slots[order[i0]].fwd.None? then MissingForward else MissingReverse;
    assert i0 == i;
  }

  /** A complete slot pair after an all-complete prefix adds its row. */
  lemma RowsSnoc(order: seq<string>, slots: map<string, Slots>, j: int, rows: seq<Row>)
    requires forall s :: s in order ==> s in slots
    requires 0 <= j < |order| && Rows(order[..j], slots) == Ok(rows) && Complete(slots[order[j]])
    ensures Rows(order[..j + 1], slots) ==
              Ok(rows + [Row(order[j], slots[order[j]].fwd.value, slots[order[j]].rev.value)])
  {
    assert order[..j + 1][..j] == order[..j];
  }

  /** `'%s\t%s\t%s' % (sid, fwd, rev)` */
  function RowLine(r: Row): string {
    r.sid + "\t" + r.fwd + "\t" + r.rev
  }

  /** The list `lines`: the header, then one line per row. */
  function Lines(rows: seq<Row>): (ls: seq<string>)
    ensures |ls| == |rows| + 1 && ls[0] == Header
    ensures forall i :: 0 <= i < |rows| ==> ls[i + 1] == RowLine(rows[i])
  {
    if rows == [] then [Header]
    else Lines(rows[..|rows| - 1]) + [RowLine(rows[|rows| - 1])]
  }

  /** The text written to the output file: lines joined with '\n', then one more '\n'. */
  function Render(rows: seq<Row>): string {
    Join(Lines(rows), '\n') + "\n"
  }

  /** The manifest rows `fq_manifestor` would write for the discovered `paths`, or its error. */
  function Build(paths: seq<string>, cfg: Config): Result<seq<Row>> {
    match ParseAll(Filter(paths, cfg.filter), cfg)
    case Err(k, n) => Err(k, n)
    case Ok(es) =>
      var t := Collect(es);
      Rows(t.order, t.slots)
  }

  /** The text of the manifest file, or the error; the file is written only on `Ok`. */
  function Manifest(paths: seq<string>, cfg: Config): Result<string> {
    match Build(paths, cfg)
    case Err(k, n) => Err(k, n)
    case Ok(rows) => Ok(Render(rows))
  }

  /** The record-count warning: printed only when `verbose`, after a successful loop, when
      the number of records is not half the number of kept files. */
  predicate Warns(paths: seq<string>, cfg: Config) {
    var b := Build(paths, cfg);
    b.Ok? && cfg.verbose && 2 * |b.value| != |Filter(paths, cfg.filter)|
  }
}
