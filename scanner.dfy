/**
  The DirectoryScanner and `findFiles` of implant.go (implant.go:159-229):
  the walk filtered into `fileList`, then one record per listed path.
*/
module Scanner {
  import opened Wrappers
  import opened Hex
  import opened Fs
  import opened Filter
  import opened Encoder

  /**
    The paths the walk callback appends to `fileList`: the walk's paths that
    `ShouldInclude` admits, in walk order. The callback always returns nil, so
    no entry stops the walk.
  */
  function Admitted(cfg: Config, fs: FileSystem, matches: Matcher, walk: seq<string>): (list: seq<string>)
    ensures |list| <= |walk|
  {
    if walk == [] then []
    else
      var last := walk[|walk| - 1];
      var init := walk[..|walk| - 1];
      assert walk == init + [last];
      Admitted(cfg, fs, matches, init) + (if ShouldInclude(cfg, fs, matches, last) then [last] else [])
  }

  /** The list holds exactly the walked paths that are admitted. */
  lemma {:induction false} AdmittedMembers(cfg: Config, fs: FileSystem, matches: Matcher, walk: seq<string>)
    ensures forall p :: p in Admitted(cfg, fs, matches, walk) <==> p in walk && ShouldInclude(cfg, fs, matches, p)
  {
    if walk != [] {
      var n := |walk| - 1;
      AdmittedMembers(cfg, fs, matches, walk[..n]);
      assert walk == walk[..n] + [walk[n]];
    }
  }

  /** A walk of one path lists that path exactly when it is admitted. */
  lemma AdmittedSingleton(cfg: Config, fs: FileSystem, matches: Matcher, p: string)
    ensures Admitted(cfg, fs, matches, [p]) == if ShouldInclude(cfg, fs, matches, p) then [p] else []
  {
    assert [p][..0] == [];
  }

  /** Filtering a walk made of two parts filters each part and keeps them in order. */
  lemma {:induction false} AdmittedAppend(cfg: Config, fs: FileSystem, matches: Matcher, a: seq<string>, b: seq<string>)
    ensures Admitted(cfg, fs, matches, a + b) == Admitted(cfg, fs, matches, a) + Admitted(cfg, fs, matches, b)
  {
    if b != [] {
      var initB := b[..|b| - 1];
      assert (a + b)[..|a + b| - 1] == a + initB;
      AdmittedAppend(cfg, fs, matches, a, initB);
    } else {
      assert a + b == a;
    }
  }

  /** `fileList` is empty exactly when no path of the walk is admitted. */
  lemma {:induction false} AdmittedEmptyIff(cfg: Config, fs: FileSystem, matches: Matcher, walk: seq<string>)
    ensures Admitted(cfg, fs, matches, walk) == [] <==> forall i :: 0 <= i < |walk| ==> !ShouldInclude(cfg, fs, matches, walk[i])
  {
    if walk != [] {
      var n := |walk| - 1;
      AdmittedEmptyIff(cfg, fs, matches, walk[..n]);
      assert forall i :: 0 <= i < n ==> walk[..n][i] == walk[i];
    }
  }

  /**
    `fileList` is an ordered selection of the walk: position k of the list is
    walk position idx[k], the positions strictly increase, and every walk
    position whose path is admitted is one of them.
  */
  lemma {:induction false} AdmittedIsOrderedSelection(cfg: Config, fs: FileSystem, matches: Matcher, walk: seq<string>)
    returns (idx: seq<nat>)
    ensures var list := Admitted(cfg, fs, matches, walk);
      && |idx| == |list|
      && (forall k :: 0 <= k < |idx| ==> idx[k] < |walk| && walk[idx[k]] == list[k])
      && (forall k, l :: 0 <= k < l < |idx| ==> idx[k] < idx[l])
      && (forall i :: 0 <= i < |walk| && ShouldInclude(cfg, fs, matches, walk[i]) ==> i in idx)
  {
    if walk == [] {
      idx := [];
    } else {
      var n := |walk| - 1;
      var init := walk[..n];
      var pre := AdmittedIsOrderedSelection(cfg, fs, matches, init);
      var front := Admitted(cfg, fs, matches, init);
      var list := Admitted(cfg, fs, matches, walk);
      assert forall i :: 0 <= i < n ==> init[i] == walk[i];
      if ShouldInclude(cfg, fs, matches, walk[n]) {
        assert list == front + [walk[n]];
        idx := pre + [n];
        assert forall k :: 0 <= k < |pre| ==> idx[k] == pre[k] && list[k] == front[k];
      } else {
        assert list == front;
        idx := pre;
      }
    }
  }

  /** What `findFiles` returns: the records of the admitted paths, or the first error. */
  function Collect(cfg: Config, fs: FileSystem, matches: Matcher, gzip: Compressor, walk: seq<string>): (r: Result<seq<Resource>, Error>)
    ensures r.Ok? <==> forall p :: p in Admitted(cfg, fs, matches, walk) ==> EncodeFile(fs, gzip, p).Ok?
    ensures r.Ok? ==> |r.value| == |Admitted(cfg, fs, matches, walk)|
  {
    var list := Admitted(cfg, fs, matches, walk);
    assert forall p :: p in list ==> exists i :: 0 <= i < |list| && list[i] == p;
    EncodeAll(fs, gzip, list)
  }

  /**
    On success there is one record per admitted path, in walk order, with that
    path as its name, the file's length, and the hex of the gzipped bytes that
    decodes back to them; on failure the error is that of the first admitted
    path that cannot be read or compressed.
  */
  lemma CollectRecords(cfg: Config, fs: FileSystem, matches: Matcher, gzip: Compressor, walk: seq<string>)
    ensures var list := Admitted(cfg, fs, matches, walk);
      var r := Collect(cfg, fs, matches, gzip, walk);
      r.Ok? ==>
        && |r.value| == |list|
        && forall i :: 0 <= i < |list| ==>
          && r.value[i].filename == list[i]
          && r.value[i].length == |ReadFile(fs, list[i]).value|
          && Decode(r.value[i].contents) == Ok(gzip(ReadFile(fs, list[i]).value).value)
    ensures var list := Admitted(cfg, fs, matches, walk);
      forall k ::
        (0 <= k < |list| && EncodeFile(fs, gzip, list[k]).Err?
         && (forall i :: 0 <= i < k ==> EncodeFile(fs, gzip, list[i]).Ok?)) ==>
        Collect(cfg, fs, matches, gzip, walk) == Err(EncodeFile(fs, gzip, list[k]).error)
  {
    var list := Admitted(cfg, fs, matches, walk);
    forall k | 0 <= k < |list| && EncodeFile(fs, gzip, list[k]).Err?
        && (forall i :: 0 <= i < k ==> EncodeFile(fs, gzip, list[i]).Ok?)
      ensures Collect(cfg, fs, matches, gzip, walk) == Err(EncodeFile(fs, gzip, list[k]).error)
    {
      EncodeAllFirstError(fs, gzip, list, k);
    }
  }

  /**
    The walk phase of `findFiles` (implant.go:165-184): the callback appends
    every admitted path to `fileList` and returns nil.
  */
  method ScanWalk(cfg: Config, fs: FileSystem, matches: Matcher, walk: seq<string>)
    returns (fileList: seq<string>)
    ensures fileList == Admitted(cfg, fs, matches, walk)
  {
    fileList := [];
    var w := 0;
    while w < |walk|
      invariant 0 <= w <= |walk|
      invariant fileList == Admitted(cfg, fs, matches, walk[..w])
    {
      var path := walk[w];
      assert walk[..w + 1][..w] == walk[..w];
      if ShouldInclude(cfg, fs, matches, path) {
        fileList := fileList + [path];
      }
      w := w + 1;
    }
    assert walk[..w] == walk;
  }

  /**
    The record phase of `findFiles` (implant.go:189-228): read, gzip and
    hex-encode each listed file, returning at the first error without the
    records gathered so far.
  */
  method EncodeFiles(fs: FileSystem, gzip: Compressor, fileList: seq<string>)
    returns (r: Result<seq<Resource>, Error>)
    ensures r == EncodeAll(fs, gzip, fileList)
  {
    var entries: seq<Resource> := [];
    var i := 0;
    while i < |fileList|
      invariant 0 <= i <= |fileList|
      invariant EncodeAll(fs, gzip, fileList[..i]) == Ok(entries)
    {
      var file := fileList[i];
      assert fileList[..i + 1][..i] == fileList[..i];
      var data := ReadFile(fs, file);
      if data.None? {
        EncodeAllErrPrefix(fs, gzip, fileList, i + 1);
        return Err(ReadError(file));
      }
      var gzipped := gzip(data.value);
      if gzipped.None? {
        EncodeAllErrPrefix(fs, gzip, fileList, i + 1);
        return Err(CompressError);
      }
      var tmp := Resource(file, Encode(gzipped.value), |data.value|);
      entries := entries + [tmp];
      i := i + 1;
    }
    assert fileList[..i] == fileList;
    return Ok(entries);
  }

  /** `findFiles`: the walk phase, then the record phase over its list. */
  method FindFiles(cfg: Config, fs: FileSystem, matches: Matcher, gzip: Compressor, walk: seq<string>)
    returns (r: Result<seq<Resource>, Error>)
    ensures r == Collect(cfg, fs, matches, gzip, walk)
  {
    var fileList := ScanWalk(cfg, fs, matches, walk);
    r := EncodeFiles(fs, gzip, fileList);
  }
}
