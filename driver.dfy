/**
  The driver `Implant` (implant.go:281-353) as a sequence of early exits:
  check the root, collect the records, refuse an empty result, render,
  optionally format, and write.
*/
module Driver {
  import opened Wrappers
  import opened Fs
  import opened Filter
  import opened Encoder
  import opened Scanner

  /** `renderTemplate`: the package name and the records to source text, or None on failure. */
  type Renderer = (string, seq<Resource>) -> Option<string>

  /** `PipeCommand("gofmt", ...)`: its errors are discarded, so it always returns some text. */
  type Formatter = string -> string

  /** How a run of `Implant` ends. */
  datatype Outcome =
    | Exit                                        // CheckInput failed: os.Exit(1)
    | Failed(error: Error)                        // findFiles returned an error
    | NoFiles                                     // findFiles returned no records
    | RenderFailed                                // renderTemplate returned an error
    | Written(destination: string, text: string)  // ioutil.WriteFile(Output, text)

  function Implant(cfg: Config, fs: FileSystem, walk: seq<string>, matches: Matcher,
                   gzip: Compressor, render: Renderer, gofmt: Formatter): (o: Outcome)
    ensures o == Exit <==> !CheckInput(cfg, fs)
    ensures o.Failed? <==> CheckInput(cfg, fs) && Collect(cfg, fs, matches, gzip, walk).Err?
    ensures o.Failed? ==> o.error == Collect(cfg, fs, matches, gzip, walk).error
    ensures o == NoFiles <==> CheckInput(cfg, fs) && Collect(cfg, fs, matches, gzip, walk) == Ok([])
    ensures o.Written? <==>
      && CheckInput(cfg, fs)
      && Collect(cfg, fs, matches, gzip, walk).Ok?
      && |Collect(cfg, fs, matches, gzip, walk).value| > 0
      && render(cfg.package, Collect(cfg, fs, matches, gzip, walk).value).Some?
    ensures o.Written? ==>
      var text := render(cfg.package, Collect(cfg, fs, matches, gzip, walk).value).value;
      o.destination == cfg.output && o.text == (if cfg.format then gofmt(text) else text)
  {
    if !CheckInput(cfg, fs) then Exit
    else
      match Collect(cfg, fs, matches, gzip, walk)
      case Err(e) => Failed(e)
      case Ok(files) =>
        if |files| < 1 then NoFiles
        else
          match render(cfg.package, files)
          case None => RenderFailed
          case Some(text) => Written(cfg.output, if cfg.format then gofmt(text) else text)
  }

  /**
    Output is written only when some walked path was admitted and every
    admitted path could be read and compressed; the text rendered is that of
    one record per admitted path, in walk order.
  */
  lemma WrittenOnlyWhenComplete(cfg: Config, fs: FileSystem, walk: seq<string>, matches: Matcher,
                                gzip: Compressor, render: Renderer, gofmt: Formatter)
    requires Implant(cfg, fs, walk, matches, gzip, render, gofmt).Written?
    ensures exists i :: 0 <= i < |walk| && ShouldInclude(cfg, fs, matches, walk[i])
    ensures forall p :: p in walk && ShouldInclude(cfg, fs, matches, p) ==> EncodeFile(fs, gzip, p).Ok?
    ensures var list := Admitted(cfg, fs, matches, walk);
      var records := Collect(cfg, fs, matches, gzip, walk).value;
      |records| == |list| && forall i :: 0 <= i < |list| ==> records[i].filename == list[i]
  {
    var list := Admitted(cfg, fs, matches, walk);
    AdmittedMembers(cfg, fs, matches, walk);
    assert list[0] in list;
    forall p | p in walk && ShouldInclude(cfg, fs, matches, p) ensures EncodeFile(fs, gzip, p).Ok? {
      var k :| 0 <= k < |list| && list[k] == p;
    }
  }

  /** A walk in which nothing is admitted ends without output, reported as "no files". */
  lemma NothingAdmitted(cfg: Config, fs: FileSystem, walk: seq<string>, matches: Matcher,
                        gzip: Compressor, render: Renderer, gofmt: Formatter)
    requires CheckInput(cfg, fs)
    requires forall i :: 0 <= i < |walk| ==> !ShouldInclude(cfg, fs, matches, walk[i])
    ensures Implant(cfg, fs, walk, matches, gzip, render, gofmt) == NoFiles
  {
    AdmittedEmptyIff(cfg, fs, matches, walk);
  }
}

/**
  Whole runs over a small tree: a root directory holding files `a` ("hi"),
  `b` (bytes 0 and 1) and a subdirectory `sub` with file `c` ("x"), walked in
  the lexical order `filepath.Walk` uses, root first.
*/
module DriverExamples {
  import opened Wrappers
  import opened Fs
  import opened Filter
  import opened Encoder
  import opened Scanner
  import opened Driver

  ghost predicate IsTree(fs: FileSystem, root: string, a: string, b: string, sub: string, c: string) {
    && Stat(fs, root) == Dir && Stat(fs, sub) == Dir
    && ReadFile(fs, a) == Some([104, 105])
    && ReadFile(fs, b) == Some([0, 1])
    && ReadFile(fs, c) == Some([120])
  }

  /** The walk filters element by element. */
  lemma AdmittedOfFive(cfg: Config, fs: FileSystem, matches: Matcher, p0: string, p1: string, p2: string, p3: string, p4: string)
    ensures Admitted(cfg, fs, matches, [p0, p1, p2, p3, p4]) ==
      Admitted(cfg, fs, matches, [p0]) + Admitted(cfg, fs, matches, [p1]) + Admitted(cfg, fs, matches, [p2])
      + Admitted(cfg, fs, matches, [p3]) + Admitted(cfg, fs, matches, [p4])
  {
    assert [p0, p1, p2, p3, p4] == [p0] + [p1] + [p2] + [p3] + [p4];
    AdmittedAppend(cfg, fs, matches, [p0] + [p1] + [p2] + [p3], [p4]);
    AdmittedAppend(cfg, fs, matches, [p0] + [p1] + [p2], [p3]);
    AdmittedAppend(cfg, fs, matches, [p0] + [p1], [p2]);
    AdmittedAppend(cfg, fs, matches, [p0], [p1]);
  }

  /** Without an exclusion pattern the three files are listed, in walk order. */
  lemma TreeAdmitted(cfg: Config, fs: FileSystem, matches: Matcher, a: string, b: string, sub: string, c: string)
    requires IsTree(fs, cfg.input, a, b, sub, c) && cfg.exclude == ""
    ensures Admitted(cfg, fs, matches, [cfg.input, a, b, sub, c]) == [a, b, c]
  {
    AdmittedOfFive(cfg, fs, matches, cfg.input, a, b, sub, c);
    AdmittedSingleton(cfg, fs, matches, cfg.input);
    AdmittedSingleton(cfg, fs, matches, a);
    AdmittedSingleton(cfg, fs, matches, b);
    AdmittedSingleton(cfg, fs, matches, sub);
    AdmittedSingleton(cfg, fs, matches, c);
  }

  /** An exclusion pattern that matches only `b`'s path lists `a` and `c`. */
  lemma TreeAdmittedExcluding(cfg: Config, fs: FileSystem, matches: Matcher, a: string, b: string, sub: string, c: string)
    requires IsTree(fs, cfg.input, a, b, sub, c) && cfg.exclude != ""
    requires matches(cfg.exclude, b) && !matches(cfg.exclude, a) && !matches(cfg.exclude, c)
    ensures Admitted(cfg, fs, matches, [cfg.input, a, b, sub, c]) == [a, c]
  {
    AdmittedOfFive(cfg, fs, matches, cfg.input, a, b, sub, c);
    AdmittedSingleton(cfg, fs, matches, cfg.input);
    AdmittedSingleton(cfg, fs, matches, a);
    AdmittedSingleton(cfg, fs, matches, b);
    AdmittedSingleton(cfg, fs, matches, sub);
    AdmittedSingleton(cfg, fs, matches, c);
  }

  /**
    With no exclusion pattern and a compressor that does not fail, the three
    files become three records in walk order with lengths 2, 2 and 1, and a
    successful render is written to the output path.
  */
  lemma ThreeFiles(cfg: Config, fs: FileSystem, matches: Matcher, gzip: Compressor, render: Renderer, gofmt: Formatter,
                   a: string, b: string, sub: string, c: string)
    requires IsTree(fs, cfg.input, a, b, sub, c) && cfg.exclude == ""
    requires forall bytes :: gzip(bytes).Some?
    ensures var r := Collect(cfg, fs, matches, gzip, [cfg.input, a, b, sub, c]);
      && r.Ok? && |r.value| == 3
      && r.value[0].filename == a && r.value[0].length == 2
      && r.value[1].filename == b && r.value[1].length == 2
      && r.value[2].filename == c && r.value[2].length == 1
    ensures render(cfg.package, Collect(cfg, fs, matches, gzip, [cfg.input, a, b, sub, c]).value).Some? ==>
      Implant(cfg, fs, [cfg.input, a, b, sub, c], matches, gzip, render, gofmt).Written?
  {
    TreeAdmitted(cfg, fs, matches, a, b, sub, c);
    var list := [a, b, c];
    assert list[0] == a && list[1] == b && list[2] == c;
    assert EncodeFile(fs, gzip, a).Ok? && EncodeFile(fs, gzip, b).Ok? && EncodeFile(fs, gzip, c).Ok?;
  }

  /** An exclusion pattern that matches only `b`'s path leaves the other two records. */
  lemma ExcludeOne(cfg: Config, fs: FileSystem, matches: Matcher, gzip: Compressor,
                   a: string, b: string, sub: string, c: string)
    requires IsTree(fs, cfg.input, a, b, sub, c) && cfg.exclude != ""
    requires matches(cfg.exclude, b) && !matches(cfg.exclude, a) && !matches(cfg.exclude, c)
    requires forall bytes :: gzip(bytes).Some?
    ensures var r := Collect(cfg, fs, matches, gzip, [cfg.input, a, b, sub, c]);
      && r.Ok? && |r.value| == 2
      && r.value[0].filename == a && r.value[1].filename == c
  {
    TreeAdmittedExcluding(cfg, fs, matches, a, b, sub, c);
    var list := [a, c];
    assert list[0] == a && list[1] == c;
    assert EncodeFile(fs, gzip, a).Ok? && EncodeFile(fs, gzip, c).Ok?;
  }

  /** A root whose stat fails stops the run before anything is scanned or written. */
  lemma MissingRoot(cfg: Config, fs: FileSystem, walk: seq<string>, matches: Matcher,
                    gzip: Compressor, render: Renderer, gofmt: Formatter)
    requires cfg.input !in fs
    ensures Implant(cfg, fs, walk, matches, gzip, render, gofmt) == Exit
  {
  }
}
