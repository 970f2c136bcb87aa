/**
 * What the manifest builder promises, proved about the specification
 * functions of module ManifestSpec: filtering keeps order, how a file name
 * yields its sample id and direction, how the slot table records the first
 * discovery of each sample and the last file for each slot, that a manifest
 * read back recovers its rows, and when the record-count warning fires.
 */
module ManifestProps {
  import opened Wrappers
  import opened Text
  import opened Patterns
  import opened ManifestSpec

  // ------------------------------------------------------------- discovery

  /** The found paths are exactly the paths found for some extension. */
  lemma {:induction false} FlattenMember(globbed: seq<seq<string>>, p: string)
    ensures p in Flatten(globbed) <==> exists i :: 0 <= i < |globbed| && p in globbed[i]
  {
    if globbed != [] {
      var init := globbed[..|globbed| - 1];
      FlattenMember(init, p);
      assert forall i :: 0 <= i < |init| ==> init[i] == globbed[i];
    }
  }

  /** One extension's search results are the whole found list when there is one extension. */
  lemma FlattenOne(x: seq<string>)
    ensures Flatten([x]) == x
  {
    assert [x][..0] == [];
  }

  /** Searching two groups of extensions in turn finds the first group's paths, then the
      second's. */
  lemma {:induction false} FlattenAppend(a: seq<seq<string>>, b: seq<seq<string>>)
    ensures Flatten(a + b) == Flatten(a) + Flatten(b)
  {
    if b != [] {
      var init := b[..|b| - 1];
      FlattenAppend(a, init);
      assert (a + b)[..|a + b| - 1] == a + init;
      assert (a + b)[|a + b| - 1] == b[|b| - 1];
    } else {
      assert a + b == a;
    }
  }

  // ---------------------------------------------------------------- filter

  /** One step of the comprehension: the first path, if it holds the filter, then the rest. */
  lemma FilterCons(paths: seq<string>, f: string)
    requires paths != []
    ensures Filter(paths, Some(f)) ==
              (if IsSubstring(f, paths[0]) then [paths[0]] else []) + Filter(paths[1..], Some(f))
  {
  }

  /** A single path is kept once when it holds the filter and dropped otherwise; with
      `FilterKeepsOrder` this fixes the result of the comprehension, multiplicities included. */
  lemma FilterOne(p: string, f: string)
    ensures Filter([p], Some(f)) == if IsSubstring(f, p) then [p] else []
  {
    FilterCons([p], f);
    assert [p][1..] == [];
  }

  /** Filtering a concatenation filters each part: kept paths stay in their relative order. */
  lemma {:induction false} FilterKeepsOrder(a: seq<string>, b: seq<string>, filter: Option<string>)
    ensures Filter(a + b, filter) == Filter(a, filter) + Filter(b, filter)
  {
    if filter.Some? && a != [] {
      var f, rest := filter.value, a[1..];
      assert (a + b)[0] == a[0] && (a + b)[1..] == rest + b;
      FilterKeepsOrder(rest, b, filter);
      FilterCons(a + b, f);
      FilterCons(a, f);
    } else if filter.Some? {
      assert a + b == b;
    }
  }

  // ------------------------------------------------------ one file's entry

  /** The sample id is the text of the base name before the first `splitOn`; a base name
      without it fails with "Sample ID not found" naming the whole path. */
  lemma ParseSampleId(path: string, cfg: Config)
    ensures Parse(path, cfg) == Err(SampleIdNotFound, path) <==> cfg.splitOn !in Basename(path)
    ensures Parse(path, cfg).Ok? ==>
              var name, sid := Basename(path), Parse(path, cfg).value.sid;
              && Parse(path, cfg).value.path == path
              && |sid| < |name| && name[..|sid|] == sid && name[|sid|] == cfg.splitOn
              && cfg.splitOn !in sid
  {
    var name := Basename(path);
    SplitHead(name, cfg.splitOn);
    SplitFields(name, cfg.splitOn);
    if cfg.splitOn in name {
      var i := FirstIndex(name, cfg.splitOn);
      assert Split(name, cfg.splitOn)[0] == name[..i];
      assert cfg.splitOn !in Split(name, cfg.splitOn)[0];
    }
  }

  /** The sample id is cut at the first `splitOn` of the base name, wherever that lies. */
  lemma SampleIdAt(path: string, cfg: Config, k: nat)
    requires k < |Basename(path)| && Basename(path)[k] == cfg.splitOn
    requires cfg.splitOn !in Basename(path)[..k]
    ensures Parse(path, cfg).Ok? ==> Parse(path, cfg).value.sid == Basename(path)[..k]
  {
    var name, c := Basename(path), cfg.splitOn;
    SplitHead(name, c);
    FirstIndexAt(name, c, k);
  }

  /** Direction: forward when the forward pattern matches the base name (even if the reverse
      one matches too), reverse when only the reverse one matches, otherwise the build fails
      with "Forward/reverse patterns not found" naming the path. */
  lemma ParseDirection(path: string, cfg: Config)
    ensures var name := Basename(path);
      && (Parse(path, cfg).Ok? && Parse(path, cfg).value.dir == Forward <==>
            cfg.splitOn in name && Matches(cfg.forward, name))
      && (Parse(path, cfg).Ok? && Parse(path, cfg).value.dir == Reverse <==>
            cfg.splitOn in name && !Matches(cfg.forward, name) && Matches(cfg.reverse, name))
      && (Parse(path, cfg) == Err(PatternsNotFound, path) <==>
            cfg.splitOn in name && !Matches(cfg.forward, name) && !Matches(cfg.reverse, name))
  {
    var name := Basename(path);
    SplitHead(name, cfg.splitOn);
    SearchCorrect(cfg.forward, name);
    SearchCorrect(cfg.reverse, name);
  }

  /** A base name whose first `splitOn` is at `k` and that the patterns classify as `d` gives
      the entry of sample id `name[..k]`, direction `d` and the whole path. */
  lemma ParseAt(path: string, cfg: Config, k: nat, d: Direction)
    requires k < |Basename(path)| && Basename(path)[k] == cfg.splitOn
    requires cfg.splitOn !in Basename(path)[..k]
    requires d == Forward ==> Matches(cfg.forward, Basename(path))
    requires d == Reverse ==> !Matches(cfg.forward, Basename(path)) && Matches(cfg.reverse, Basename(path))
    ensures Parse(path, cfg) == Ok(Entry(Basename(path)[..k], d, path))
  {
    ParseDirection(path, cfg);
    ParseSampleId(path, cfg);
    SampleIdAt(path, cfg, k);
  }

  /** The default forward pattern '_1.' has a wildcard, so a base name such as 'M_10_2.fq' is
      classified forward although its read number is 2: any third character after '_1' does. */
  lemma WildcardForward(sid: string, rest: string, cfg: Config)
    requires cfg.splitOn == '_' && cfg.forward == ForwardDefault
    requires '/' !in sid && '/' !in rest && '_' !in sid
    ensures Parse(sid + "_10_2" + rest, cfg) == Ok(Entry(sid, Forward, sid + "_10_2" + rest))
  {
    var name := sid + "_10_2" + rest;
    assert '/' !in "_10_2";
    BasenameNoSlash(name);
    assert name[..|sid|] == sid && name[|sid|..|sid| + 3] == "_10";
    DefaultAt(name, |sid|, '1');
    ParseAt(name, cfg, |sid|, Forward);
  }

  /** '_' then `c` then any character but a newline is a match of the default pattern of
      read `c`, forward for '1' and reverse for '2'. */
  lemma DefaultAt(name: string, k: nat, c: char)
    requires c == '1' || c == '2'
    requires k + 2 < |name| && name[k] == '_' && name[k + 1] == c && name[k + 2] != '\n'
    ensures Matches(if c == '1' then ForwardDefault else ReverseDefault, name)
  {
    assert ForwardDefault == [Lit('_'), Lit('1'), AnyChar];
    assert ReverseDefault == [Lit('_'), Lit('2'), AnyChar];
    assert MatchesAt(if c == '1' then ForwardDefault else ReverseDefault, name, k);
  }

  /** With the default arguments, a file `<dir>/<sid>_<c><tail>` whose sample id and tail hold
      no '_' or '/', and whose tail starts with a character other than a newline (the `.` of the
      pattern needs one), is a forward read of `<sid>` when `c` is '1' and a reverse read when
      it is '2'. */
  lemma DefaultsParse(dir: string, sid: string, c: char, tail: string)
    requires '_' !in sid && '/' !in sid && '_' !in tail && '/' !in tail
    requires (c == '1' || c == '2') && |tail| >= 1 && tail[0] != '\n'
    ensures var path := dir + "/" + sid + "_" + [c] + tail;
      Parse(path, Defaults) == Ok(Entry(sid, if c == '1' then Forward else Reverse, path))
  {
    var name := sid + "_" + [c] + tail;
    var path := dir + "/" + name;
    assert dir + "/" + sid + "_" + [c] + tail == path;
    BasenameAfterSlash(dir, name);
    assert name[|sid|] == '_';
    // the only '_' of the name is the one after the sample id
    forall i | 0 <= i < |name| && name[i] == '_' ensures i == |sid| {
    }
    DefaultAt(name, |sid|, c);
    if c == '2' {
      assert ForwardDefault[1] == Lit('1');
      assert !Matches(ForwardDefault, name);
    }
    assert name[..|sid|] == sid;
    ParseAt(path, Defaults, |sid|, if c == '1' then Forward else Reverse);
  }

  /** The two-file case with the default arguments: one forward and one reverse file of a sample
      give a manifest of one row holding both paths. */
  lemma DefaultsPair(dir: string, sid: string)
    requires '_' !in sid && '/' !in sid
    ensures var fwd, rev := dir + "/" + sid + "_1.fastq.gz", dir + "/" + sid + "_2.fastq.gz";
      Build([fwd, rev], Defaults) == Ok([Row(sid, fwd, rev)])
  {
    var fwd, rev := dir + "/" + sid + "_1.fastq.gz", dir + "/" + sid + "_2.fastq.gz";
    assert '_' !in ".fastq.gz" && '/' !in ".fastq.gz";
    assert fwd == dir + "/" + sid + "_" + ['1'] + ".fastq.gz";
    assert rev == dir + "/" + sid + "_" + ['2'] + ".fastq.gz";
    DefaultsParse(dir, sid, '1', ".fastq.gz");
    DefaultsParse(dir, sid, '2', ".fastq.gz");
    PairParseAll(fwd, rev, Entry(sid, Forward, fwd), Entry(sid, Reverse, rev), Defaults);
    PairRows(sid, fwd, rev);
  }

  /** Two paths that both parse give both entries, in order. */
  lemma PairParseAll(p1: string, p2: string, e1: Entry, e2: Entry, cfg: Config)
    requires Parse(p1, cfg) == Ok(e1) && Parse(p2, cfg) == Ok(e2)
    ensures ParseAll([p1, p2], cfg) == Ok([e1, e2])
  {
    assert [p1, p2][..1] == [p1] && [p1][..0] == [];
    assert Parsed([p1, p2], cfg) == [Ok(e1), Ok(e2)];
    var none: seq<Result<Entry>> := [];
    GatherSnoc(none, [], e1);
    GatherSnoc(none + [Ok(e1)], [] + [e1], e2);
    assert none + [Ok(e1)] + [Ok(e2)] == [Ok(e1), Ok(e2)];
    assert [] + [e1] + [e2] == [e1, e2];
  }

  /** A forward then a reverse file of one sample fill its pair and give one row. */
  lemma PairRows(sid: string, fwd: string, rev: string)
    ensures var t := Collect([Entry(sid, Forward, fwd), Entry(sid, Reverse, rev)]);
      Rows(t.order, t.slots) == Ok([Row(sid, fwd, rev)])
  {
    PairCollect(sid, fwd, rev);
    var t := Collect([Entry(sid, Forward, fwd), Entry(sid, Reverse, rev)]);
    assert Complete(t.slots[t.order[0]]);
    var r := Rows(t.order, t.slots);
    assert r.value[0] == Row(sid, fwd, rev);
    assert r.value == [Row(sid, fwd, rev)];
  }

  /** The slot table of a forward then a reverse file of one sample: one key, both slots filled. */
  lemma PairCollect(sid: string, fwd: string, rev: string)
    ensures Collect([Entry(sid, Forward, fwd), Entry(sid, Reverse, rev)])
         == Table([sid], map[sid := Slots(Some(fwd), Some(rev))])
  {
    var e1, e2 := Entry(sid, Forward, fwd), Entry(sid, Reverse, rev);
    assert [e1, e2][..1] == [e1] && [e1][..0] == [];
    assert Collect([e1]) == Table([sid], map[sid := Slots(Some(fwd), None)]);
  }

  /** The verbose flag only decides the warning: it never changes the manifest or the error. */
  lemma VerboseNoEffect(paths: seq<string>, cfg: Config, v: bool)
    ensures Manifest(paths, cfg) == Manifest(paths, cfg.(verbose := v))
  {
    var cfg' := cfg.(verbose := v);
    var kept := Filter(paths, cfg.filter);
    forall i | 0 <= i < |kept| ensures Parsed(kept, cfg)[i] == Parsed(kept, cfg')[i] {
      ParsedAt(kept, i, cfg);
      ParsedAt(kept, i, cfg');
    }
    assert Parsed(kept, cfg) == Parsed(kept, cfg');
  }

  // ------------------------------------------------------------- the loop

  /** Each path's result sits at its own index. */
  lemma {:induction false} ParsedAt(paths: seq<string>, i: int, cfg: Config)
    requires 0 <= i < |paths|
    ensures Parsed(paths, cfg)[i] == Parse(paths[i], cfg)
  {
    if i < |paths| - 1 {
      var init := paths[..|paths| - 1];
      ParsedAt(init, i, cfg);
      assert init[i] == paths[i];
    }
  }

  /** The main loop succeeds exactly when every path parses, and then yields their entries
      in order; otherwise it fails with the error of the first path that does not parse. */
  lemma ParseAllSpec(paths: seq<string>, cfg: Config)
    ensures var r := ParseAll(paths, cfg);
      && (r.Ok? ==> |r.value| == |paths| && forall i :: 0 <= i < |paths| ==> Parse(paths[i], cfg) == Ok(r.value[i]))
      && (r.Err? ==> exists i :: 0 <= i < |paths| && Parse(paths[i], cfg) == Err(r.kind, r.name)
                               && forall j :: 0 <= j < i ==> Parse(paths[j], cfg).Ok?)
  {
    forall i | 0 <= i < |paths| ensures Parsed(paths, cfg)[i] == Parse(paths[i], cfg) {
      ParsedAt(paths, i, cfg);
    }
  }

  // ------------------------------------------------------ the slot table

  /** Some entry belongs to sample `x`. */
  ghost predicate Seen(es: seq<Entry>, x: string) {
    exists k :: 0 <= k < |es| && es[k].sid == x
  }

  /** An entry of sample `x` comes before every entry of sample `y`. */
  ghost predicate DiscoveredBefore(es: seq<Entry>, x: string, y: string) {
    exists k :: 0 <= k < |es| && es[k].sid == x && forall j :: 0 <= j <= k ==> es[j].sid != y
  }

  lemma SeenSnoc(init: seq<Entry>, e: Entry, x: string)
    ensures Seen(init + [e], x) <==> Seen(init, x) || e.sid == x
  {
    var es := init + [e];
    if Seen(init, x) {
      var k :| 0 <= k < |init| && init[k].sid == x;
      assert es[k].sid == x;
    }
    if e.sid == x {
      assert es[|init|].sid == x;
    }
  }

  lemma DiscoveredSnoc(init: seq<Entry>, e: Entry, x: string, y: string)
    requires DiscoveredBefore(init, x, y)
    ensures DiscoveredBefore(init + [e], x, y)
  {
    var k :| 0 <= k < |init| && init[k].sid == x && forall j :: 0 <= j <= k ==> init[j].sid != y;
    var es := init + [e];
    assert es[k].sid == x;
    assert forall j :: 0 <= j <= k ==> es[j] == init[j];
  }

  lemma DiscoveredNew(init: seq<Entry>, e: Entry, x: string)
    requires Seen(init, x) && !Seen(init, e.sid)
    ensures DiscoveredBefore(init + [e], x, e.sid)
  {
    var k :| 0 <= k < |init| && init[k].sid == x;
    var es := init + [e];
    assert es[k].sid == x;
    forall j | 0 <= j <= k ensures es[j].sid != e.sid {
      assert es[j] == init[j];
    }
  }

  /** The dictionary's keys, in insertion order, are the distinct sample ids of the entries,
      each placed by its first discovery. */
  lemma {:induction false} CollectOrder(es: seq<Entry>)
    ensures forall x :: x in Collect(es).order <==> Seen(es, x)
    ensures forall a, b :: 0 <= a < b < |Collect(es).order| ==>
              DiscoveredBefore(es, Collect(es).order[a], Collect(es).order[b])
  {
    if es != [] {
      var init, e := es[..|es| - 1], es[|es| - 1];
      assert es == init + [e];
      CollectOrder(init);
      CollectSeenStep(init, e);
      CollectOrderStep(init, e);
    }
  }

  /** One assignment adds its sample id to the keys, and nothing else. */
  lemma CollectSeenStep(init: seq<Entry>, e: Entry)
    requires forall x :: x in Collect(init).order <==> Seen(init, x)
    ensures forall x :: x in Collect(init + [e]).order <==> Seen(init + [e], x)
  {
    var es := init + [e];
    assert es[..|es| - 1] == init && es[|es| - 1] == e;
    var t := Collect(es);
    assert t == Assign(Collect(init), e);
    forall x ensures x in t.order <==> Seen(es, x) {
      SeenSnoc(init, e, x);
    }
  }

  /** One assignment keeps the order of first discovery. */
  lemma CollectOrderStep(init: seq<Entry>, e: Entry)
    requires forall x :: x in Collect(init).order <==> Seen(init, x)
    requires forall a, b :: 0 <= a < b < |Collect(init).order| ==>
               DiscoveredBefore(init, Collect(init).order[a], Collect(init).order[b])
    ensures var es := init + [e];
      forall a, b :: 0 <= a < b < |Collect(es).order| ==>
        DiscoveredBefore(es, Collect(es).order[a], Collect(es).order[b])
  {
    var es := init + [e];
    var t0 := Collect(init);
    var t := Collect(es);
    assert es[..|es| - 1] == init && es[|es| - 1] == e;
    assert t == Assign(t0, e);
    forall a, b | 0 <= a < b < |t.order| ensures DiscoveredBefore(es, t.order[a], t.order[b]) {
      if b < |t0.order| {
        assert t.order[a] == t0.order[a] && t.order[b] == t0.order[b];
        DiscoveredSnoc(init, e, t0.order[a], t0.order[b]);
      } else {
        assert e.sid !in t0.order;
        assert t.order[b] == e.sid && t.order[a] == t0.order[a];
        DiscoveredNew(init, e, t0.order[a]);
      }
    }
  }

  /** The slot of direction `d` in a slot pair. */
  function SlotOf(s: Slots, d: Direction): Option<string> {
    if d == Forward then s.fwd else s.rev
  }

  /** Entry `k` is a file of sample `x` in direction `d`. */
  ghost predicate Writes(es: seq<Entry>, k: int, x: string, d: Direction) {
    0 <= k < |es| && es[k].sid == x && es[k].dir == d
  }

  /** Entry `k` is the last file of sample `x` in direction `d`. */
  ghost predicate LastWrite(es: seq<Entry>, k: int, x: string, d: Direction) {
    Writes(es, k, x, d) && forall j :: k < j < |es| ==> !Writes(es, j, x, d)
  }

  lemma WritesSnoc(init: seq<Entry>, e: Entry, x: string, d: Direction)
    ensures forall k :: Writes(init + [e], k, x, d) <==>
              Writes(init, k, x, d) || (k == |init| && e.sid == x && e.dir == d)
  {
    assert forall k :: 0 <= k < |init| ==> (init + [e])[k] == init[k];
  }

  /** Last write wins: a slot is empty exactly when no file of that sample and direction was
      seen, and otherwise holds the path of the last such file. */
  lemma CollectSlot(es: seq<Entry>, x: string, d: Direction)
    requires x in Collect(es).slots
    ensures SlotOf(Collect(es).slots[x], d).None? <==> forall k :: !Writes(es, k, x, d)
    ensures forall k :: LastWrite(es, k, x, d) ==> SlotOf(Collect(es).slots[x], d) == Some(es[k].path)
  {
    SlotInduction(es, x, d);
  }

  /** The two facts of CollectSlot, when `x` is a key. */
  ghost predicate SlotAgrees(es: seq<Entry>, x: string, d: Direction) {
    x in Collect(es).slots ==>
      && (SlotOf(Collect(es).slots[x], d).None? <==> forall k :: !Writes(es, k, x, d))
      && (forall k :: LastWrite(es, k, x, d) ==> SlotOf(Collect(es).slots[x], d) == Some(es[k].path))
  }

  lemma {:induction false} SlotInduction(es: seq<Entry>, x: string, d: Direction)
    ensures SlotAgrees(es, x, d)
  {
    if es != [] {
      var init, e := es[..|es| - 1], es[|es| - 1];
      assert es == init + [e];
      SlotInduction(init, x, d);
      SlotStep(init, e, x, d);
    }
  }

  lemma SlotStep(init: seq<Entry>, e: Entry, x: string, d: Direction)
    requires SlotAgrees(init, x, d)
    ensures SlotAgrees(init + [e], x, d)
  {
    var es := init + [e];
    if x in Collect(es).slots {
      WritesSnoc(init, e, x, d);
      if e.sid == x && e.dir == d {
        SlotHit(init, e, x, d);
      } else if x in Collect(init).slots {
        SlotKept(init, e, x, d);
      } else {
        SlotFresh(init, e, x, d);
      }
    }
  }

  /** The file just assigned is the last write of its own slot. */
  lemma SlotHit(init: seq<Entry>, e: Entry, x: string, d: Direction)
    requires e.sid == x && e.dir == d
    ensures SlotOf(Collect(init + [e]).slots[x], d) == Some(e.path)
    ensures Writes(init + [e], |init|, x, d)
    ensures forall k :: LastWrite(init + [e], k, x, d) ==> k == |init|
  {
    var es := init + [e];
    assert es[..|es| - 1] == init && es[|es| - 1] == e;
    assert Collect(es) == Assign(Collect(init), e);
    assert Writes(es, |init|, x, d);
  }

  /** Assigning another slot keeps this one, and its last write. */
  lemma SlotKept(init: seq<Entry>, e: Entry, x: string, d: Direction)
    requires !(e.sid == x && e.dir == d)
    ensures x in Collect(init).slots ==>
              SlotOf(Collect(init + [e]).slots[x], d) == SlotOf(Collect(init).slots[x], d)
    ensures forall k :: LastWrite(init + [e], k, x, d) ==> LastWrite(init, k, x, d)
  {
    var es := init + [e];
    assert es[..|es| - 1] == init && es[|es| - 1] == e;
    assert Collect(es) == Assign(Collect(init), e);
    WritesSnoc(init, e, x, d);
  }

  /** A sample met for the first time has its other slot empty, and no file for it. */
  lemma SlotFresh(init: seq<Entry>, e: Entry, x: string, d: Direction)
    requires !(e.sid == x && e.dir == d) && x !in Collect(init).slots && x in Collect(init + [e]).slots
    ensures SlotOf(Collect(init + [e]).slots[x], d).None?
    ensures forall k :: !Writes(init + [e], k, x, d)
  {
    var es := init + [e];
    assert es[..|es| - 1] == init && es[|es| - 1] == e;
    assert Collect(es) == Assign(Collect(init), e);
    CollectOrder(init);
    assert !Seen(init, x);
    WritesSnoc(init, e, x, d);
  }

  // --------------------------------------------------------- the rendered text

  /** Neither a tab nor a newline: a field the manifest format can carry. */
  predicate Clean(s: string) {
    '\t' !in s && '\n' !in s
  }

  predicate CleanRow(r: Row) {
    Clean(r.sid) && Clean(r.fwd) && Clean(r.rev)
  }

  /** A reader of the manifest format: split the text on '\n', require the header first and
      the empty piece after the final '\n', and split each line between them on '\t' into
      exactly three fields. */
  function ReadManifest(text: string): Option<seq<Row>> {
    var pieces := Split(text, '\n');
    if |pieces| < 2 || pieces[0] != Header || pieces[|pieces| - 1] != "" then None
    else ReadRows(pieces[1..|pieces| - 1])
  }

  function ReadRows(lines: seq<string>): Option<seq<Row>> {
    if lines == [] then Some([])
    else
      match ReadRows(lines[..|lines| - 1])
      case None => None
      case Some(rs) =>
        var fields := Split(lines[|lines| - 1], '\t');
        if |fields| == 3 then Some(rs + [Row(fields[0], fields[1], fields[2])]) else None
  }

  /** A data line splits on tabs back into its three fields and holds no newline. */
  lemma RowLineSplit(r: Row)
    requires CleanRow(r)
    ensures Split(RowLine(r), '\t') == [r.sid, r.fwd, r.rev]
    ensures '\n' !in RowLine(r)
  {
    JoinCons(r.fwd, [r.rev], '\t');
    JoinCons(r.sid, [r.fwd, r.rev], '\t');
    assert [r.sid] + [r.fwd, r.rev] == [r.sid, r.fwd, r.rev];
    assert RowLine(r) == Join([r.sid, r.fwd, r.rev], '\t');
    SplitJoin([r.sid, r.fwd, r.rev], '\t');
  }

  lemma LinesClean(rows: seq<Row>)
    requires forall i :: 0 <= i < |rows| ==> CleanRow(rows[i])
    ensures forall i :: 0 <= i < |Lines(rows)| ==> '\n' !in Lines(rows)[i]
  {
    forall i | 0 <= i < |Lines(rows)| ensures '\n' !in Lines(rows)[i] {
      if i > 0 {
        RowLineSplit(rows[i - 1]);
        assert Lines(rows)[(i - 1) + 1] == RowLine(rows[i - 1]);
      } else {
        HeaderOneLine();
      }
    }
  }

  lemma HeaderOneLine()
    ensures '\n' !in Header
  {
    assert '\n' !in "sample-id";
    assert '\n' !in "forward-absolute-filepath";
    assert '\n' !in "reverse-absolute-filepath";
  }

  lemma ReadRowsSnoc(lines: seq<string>, line: string, rs: seq<Row>, r: Row)
    requires ReadRows(lines) == Some(rs)
    requires Split(line, '\t') == [r.sid, r.fwd, r.rev]
    ensures ReadRows(lines + [line]) == Some(rs + [r])
  {
    assert (lines + [line])[..|lines|] == lines;
  }

  lemma {:induction false} ReadLines(rows: seq<Row>)
    requires forall i :: 0 <= i < |rows| ==> CleanRow(rows[i])
    ensures ReadRows(Lines(rows)[1..]) == Some(rows)
  {
    if rows != [] {
      var init, last := rows[..|rows| - 1], rows[|rows| - 1];
      assert rows == init + [last];
      assert Lines(rows) == Lines(init) + [RowLine(last)];
      assert Lines(rows)[1..] == Lines(init)[1..] + [RowLine(last)];
      ReadLines(init);
      RowLineSplit(last);
      ReadRowsSnoc(Lines(init)[1..], RowLine(last), init, last);
    }
  }

  /** Round trip: reading the rendered text gives back exactly the rows, in order, when no
      field holds a tab or a newline. */
  lemma RenderRoundTrip(rows: seq<Row>)
    requires forall i :: 0 <= i < |rows| ==> CleanRow(rows[i])
    ensures ReadManifest(Render(rows)) == Some(rows)
  {
    var ls := Lines(rows);
    ReadLines(rows);
    LinesClean(rows);
    JoinTrailing(ls, '\n');
    var padded := ls + [""];
    assert Render(rows) == Join(padded, '\n');
    assert forall k :: 0 <= k < |padded| ==> '\n' !in padded[k];
    SplitJoin(padded, '\n');
    assert padded[1..|padded| - 1] == ls[1..];
  }

  lemma CleanSlice(s: string, a: int, b: int)
    requires Clean(s) && 0 <= a <= b <= |s|
    ensures Clean(s[a..b])
  {
    assert forall k :: 0 <= k < b - a ==> s[a..b][k] == s[a + k];
  }

  /** The sample id and path of an entry come from its path. */
  lemma ParseClean(path: string, cfg: Config)
    requires Clean(path) && Parse(path, cfg).Ok?
    ensures Clean(Parse(path, cfg).value.sid) && Parse(path, cfg).value.path == path
  {
    var name := Basename(path);
    BasenameSpec(path);
    CleanSlice(path, |path| - |name|, |path|);
    ParseSampleId(path, cfg);
    CleanSlice(name, 0, |Parse(path, cfg).value.sid|);
  }

  /** Keys and filled slots of the table hold no tab or newline when no entry's sample id or
      path does. */
  lemma {:induction false} CollectClean(es: seq<Entry>)
    requires forall k :: 0 <= k < |es| ==> Clean(es[k].sid) && Clean(es[k].path)
    ensures forall x :: x in Collect(es).slots ==>
              Clean(x) &&
              (Collect(es).slots[x].fwd.Some? ==> Clean(Collect(es).slots[x].fwd.value)) &&
              (Collect(es).slots[x].rev.Some? ==> Clean(Collect(es).slots[x].rev.value))
  {
    if es != [] {
      var init, e := es[..|es| - 1], es[|es| - 1];
      assert Collect(es) == Assign(Collect(init), e);
      CollectClean(init);
    }
  }

  /** Round trip of the whole builder: when no kept path holds a tab or a newline, reading
      the manifest text back gives exactly its rows: one (sample id, forward, reverse) per sample
      of the slot table, in first-discovery order. */
  lemma ManifestRoundTrip(paths: seq<string>, cfg: Config)
    requires forall p :: p in Filter(paths, cfg.filter) ==> Clean(p)
    ensures Manifest(paths, cfg).Ok? ==> ReadManifest(Manifest(paths, cfg).value) == Some(Build(paths, cfg).value)
  {
    var kept := Filter(paths, cfg.filter);
    var pa := ParseAll(kept, cfg);
    if Manifest(paths, cfg).Ok? {
      var es := pa.value;
      ParseAllSpec(kept, cfg);
      forall k | 0 <= k < |es| ensures Clean(es[k].sid) && Clean(es[k].path) {
        assert kept[k] in kept;
        ParseClean(kept[k], cfg);
      }
      CollectClean(es);
      var t := Collect(es);
      var rows := Build(paths, cfg).value;
      assert forall i :: 0 <= i < |rows| ==> t.order[i] in t.slots;
      RenderRoundTrip(rows);
    }
  }

  // ------------------------------------------------------ the count warning

  /** How many of the two slots of a pair are filled. */
  function Fill(s: Slots): nat {
    (if s.fwd.Some? then 1 else 0) + (if s.rev.Some? then 1 else 0)
  }

  /** Filled slots over the samples of `order`. */
  function Filled(order: seq<string>, slots: map<string, Slots>): nat
    requires forall s :: s in order ==> s in slots
  {
    if order == [] then 0
    else Filled(order[..|order| - 1], slots) + Fill(slots[order[|order| - 1]])
  }

  /** Entry `k` names the sample and direction of an earlier entry, so its slot is overwritten. */
  ghost predicate Repeats(es: seq<Entry>, k: int) {
    0 <= k < |es| && exists j :: 0 <= j < k && Writes(es, j, es[k].sid, es[k].dir)
  }

  /** How many entries overwrite a slot. */
  ghost function Repeated(es: seq<Entry>): nat {
    if es == [] then 0
    else Repeated(es[..|es| - 1]) + if Repeats(es, |es| - 1) then 1 else 0
  }

  /** Two entries name the same sample and the same direction. */
  ghost predicate HasRepeat(es: seq<Entry>) {
    exists j, k :: 0 <= j < k < |es| && es[j].sid == es[k].sid && es[j].dir == es[k].dir
  }

  lemma HasRepeatSnoc(es: seq<Entry>)
    requires es != []
    ensures HasRepeat(es) <==> HasRepeat(es[..|es| - 1]) || Repeats(es, |es| - 1)
  {
    var init := es[..|es| - 1];
    if HasRepeat(es) {
      var j, k :| 0 <= j < k < |es| && es[j].sid == es[k].sid && es[j].dir == es[k].dir;
      if k < |init| {
        assert init[j] == es[j] && init[k] == es[k];
      } else {
        assert Writes(es, j, es[k].sid, es[k].dir);
      }
    }
    if HasRepeat(init) {
      var j, k :| 0 <= j < k < |init| && init[j].sid == init[k].sid && init[j].dir == init[k].dir;
      assert es[j] == init[j] && es[k] == init[k];
    }
  }

  lemma {:induction false} RepeatedCount(es: seq<Entry>)
    ensures Repeated(es) == 0 <==> !HasRepeat(es)
  {
    if es != [] {
      RepeatedCount(es[..|es| - 1]);
      HasRepeatSnoc(es);
    }
  }

  /** Slots outside `order` do not count. */
  lemma {:induction false} FilledFrame(order: seq<string>, s1: map<string, Slots>, s2: map<string, Slots>)
    requires forall s :: s in order ==> s in s1 && s in s2 && s1[s] == s2[s]
    ensures Filled(order, s1) == Filled(order, s2)
  {
    if order != [] {
      FilledFrame(order[..|order| - 1], s1, s2);
    }
  }

  /** Replacing the pair of one listed sample changes the count by the difference. */
  lemma {:induction false} FilledUpdate(order: seq<string>, slots: map<string, Slots>, x: string, v: Slots)
    requires NoDup(order) && x in order
    requires forall s :: s in order ==> s in slots
    ensures Filled(order, slots[x := v]) + Fill(slots[x]) == Filled(order, slots) + Fill(v)
  {
    var init, y := order[..|order| - 1], order[|order| - 1];
    assert order == init + [y];
    if y == x {
      assert x !in init;
      FilledFrame(init, slots, slots[x := v]);
    } else {
      FilledUpdate(init, slots, x, v);
    }
  }

  lemma {:induction false} FilledComplete(order: seq<string>, slots: map<string, Slots>)
    requires forall s :: s in order ==> s in slots
    requires forall i :: 0 <= i < |order| ==> Complete(slots[order[i]])
    ensures Filled(order, slots) == 2 * |order|
  {
    if order != [] {
      FilledComplete(order[..|order| - 1], slots);
    }
  }

  /** An assignment fills one more slot exactly when the slot it writes was empty. */
  lemma FilledAssign(t0: Table, e: Entry)
    requires WellFormed(t0)
    ensures Filled(Assign(t0, e).order, Assign(t0, e).slots)
              == Filled(t0.order, t0.slots) + if SlotOf(Prior(t0, e.sid), e.dir).None? then 1 else 0
  {
    var t := Assign(t0, e);
    if e.sid in t0.slots {
      FilledUpdate(t0.order, t0.slots, e.sid, t.slots[e.sid]);
      assert t.slots == t0.slots[e.sid := t.slots[e.sid]];
    } else {
      FilledFrame(t0.order, t0.slots, t.slots);
      assert t.order[..|t.order| - 1] == t0.order;
    }
  }

  /** The last entry overwrites exactly when its slot was already filled. */
  lemma RepeatsLast(es: seq<Entry>)
    requires es != []
    ensures var e := es[|es| - 1];
      Repeats(es, |es| - 1) <==> SlotOf(Prior(Collect(es[..|es| - 1]), e.sid), e.dir).Some?
  {
    var init, e := es[..|es| - 1], es[|es| - 1];
    assert es == init + [e];
    WritesSnoc(init, e, e.sid, e.dir);
    if e.sid in Collect(init).slots {
      CollectSlot(init, e.sid, e.dir);
    } else {
      CollectOrder(init);
      assert !Seen(init, e.sid);
    }
  }

  /** Every entry fills a slot, except the ones that overwrite a filled one. */
  lemma {:induction false} CollectCount(es: seq<Entry>)
    ensures Filled(Collect(es).order, Collect(es).slots) + Repeated(es) == |es|
  {
    if es != [] {
      var init, e := es[..|es| - 1], es[|es| - 1];
      CollectCount(init);
      assert Collect(es) == Assign(Collect(init), e);
      FilledAssign(Collect(init), e);
      RepeatsLast(es);
    }
  }

  /** The record-count check: a manifest has at most half as many rows as kept files, and
      exactly half unless two files name the same sample and direction, in which case the
      later one silently replaced the earlier; the warning fires exactly then (when verbose). */
  lemma WarnsSpec(paths: seq<string>, cfg: Config)
    ensures var kept := Filter(paths, cfg.filter);
      Build(paths, cfg).Ok? ==>
        && 2 * |Build(paths, cfg).value| <= |kept|
        && (Warns(paths, cfg) <==> cfg.verbose && HasRepeat(ParseAll(kept, cfg).value))
  {
    var kept := Filter(paths, cfg.filter);
    if Build(paths, cfg).Ok? {
      var es := ParseAll(kept, cfg).value;
      ParseAllSpec(kept, cfg);
      var t := Collect(es);
      CollectCount(es);
      FilledComplete(t.order, t.slots);
      RepeatedCount(es);
    }
  }
}
